/** `wrap::reflow`: rewriting a buffer as the rows of its wrap map. */
module ReflowText {
  import opened Bytes
  import opened Grapheme
  import opened Clusters
  import opened LineIndexes
  import opened TextBuffer
  import opened TextLines
  import opened WordWrap
  import opened WrapLaws

  // ----- the operation

  /** `n` clusters forward from `from`. */
  function Steps(tab: Table, text: bytes, from: nat, n: nat): (to: nat)
    ensures from <= |text| ==> from <= to <= |text|
    decreases n
  {
    if n == 0 then from else Steps(tab, text, NextBreak(tab, text, from), n - 1)
  }

  function RowText(tab: Table, source: bytes, row: Row): bytes {
    var start := Steps(tab, source, 0, row.start.col);
    var end := Steps(tab, source, start, if RowLength(row) > 0 then RowLength(row) else 0);
    source[start..end]
  }

  function RowTexts(tab: Table, text: bytes, rows: seq<Row>): seq<bytes> {
    seq(|rows|, k requires 0 <= k < |rows| => RowText(tab, LineText(text, rows[k].start.line), rows[k]))
  }

  function Reflowed(tab: Table, text: bytes, width: nat, breakWords: bool): bytes {
    Terminated(RowTexts(tab, text, Wrapped(tab, text, width, breakWords)))
  }

  /** `reflow`. */
  method Reflow(buffer: Buffer, width: nat, breakWords: bool)
    requires buffer.Valid()
    modifies buffer, buffer.cell
    ensures buffer.Valid()
    ensures buffer.Text() == Reflowed(buffer.tab, old(buffer.Text()), width, breakWords)
  {
    hide Terminated, RowText, LineText, Wrapped;
    var wrapMap := SoftWrap(buffer.tab, buffer.Text(), width, breakWords);
    var rows := wrapMap.rows;
    var result: bytes := [];
    TerminatedNothing();
    assert RowTexts(buffer.tab, buffer.Text(), rows[..0]) == [];
    for r := 0 to |rows|
      invariant result == Terminated(RowTexts(buffer.tab, buffer.Text(), rows[..r]))
      modifies {}
    {
      var source := buffer.Line(rows[r].start.line);
      var piece := CutRow(buffer.tab, source, rows[r]);
      AppendRowText(buffer.tab, buffer.Text(), rows, r);
      result := result + piece + [LF];
    }
    assert rows[..|rows|] == rows;
    buffer.Overwrite(result);
  }

  method CutRow(tab: Table, source: bytes, row: Row) returns (piece: bytes)
    ensures piece == RowText(tab, source, row)
  {
    hide NextBreak;
    var start: nat := 0;
    for i := 0 to row.start.col
      invariant start <= |source|
      invariant Steps(tab, source, start, row.start.col - i) == Steps(tab, source, 0, row.start.col)
    {
      start := FindNextBreak(tab, source, start);
    }
    var end := start;
    ghost var length := if RowLength(row) > 0 then RowLength(row) else 0;
    var i := row.start.col;
    while i < row.end.col
      invariant row.start.col <= i && (i <= row.end.col || i == row.start.col)
      invariant start <= end <= |source|
      invariant i <= row.end.col ==> Steps(tab, source, end, row.end.col - i) == Steps(tab, source, start, length)
      invariant i > row.end.col ==> end == start
    {
      end := FindNextBreak(tab, source, end);
      i := i + 1;
    }
    piece := source[start..end];
  }

  lemma AppendRowText(tab: Table, text: bytes, rows: seq<Row>, r: nat)
    requires r < |rows|
    ensures Terminated(RowTexts(tab, text, rows[..r + 1]))
         == Terminated(RowTexts(tab, text, rows[..r]))
            + RowText(tab, LineText(text, rows[r].start.line), rows[r]) + [LF]
  {
    hide Terminated, RowText, LineText;
    var piece := RowText(tab, LineText(text, rows[r].start.line), rows[r]);
    assert RowTexts(tab, text, rows[..r + 1]) == RowTexts(tab, text, rows[..r]) + [piece];
    TerminatedAppend(RowTexts(tab, text, rows[..r]), [piece]);
    TerminatedCons(piece, []);
    TerminatedNothing();
    assert [piece] + [] == [piece];
  }

  // ----- the text of one row

  /** Where the text of the row that starts at `begin` starts: past the rest of a severed cluster. */
  ghost function Up(tab: Table, line: bytes, begin: nat): nat {
    if OnChain(tab, line, 0, begin) then begin else NextBreak(tab, line, begin)
  }

  ghost function Piece(tab: Table, line: bytes, span: Span): bytes
    requires Up(tab, line, span.begin) <= span.end <= |line|
  {
    line[Up(tab, line, span.begin)..span.end]
  }

  lemma {:induction false} StepsReach(tab: Table, text: bytes, from: nat, b: nat)
    requires OnChain(tab, text, from, b) && b <= |text|
    ensures Steps(tab, text, from, CountTo(tab, text, from, b)) == b
    decreases |text| - from
  {
    hide NextBreak;
    ChainBounds(tab, text, from, b);
    if from < b {
      StepsReach(tab, text, NextBreak(tab, text, from), b);
    }
  }

  lemma UpFacts(tab: Table, line: bytes, span: Span, limit: nat)
    requires SpanFits(tab, line, span, limit)
    ensures var up := Up(tab, line, span.begin);
            && span.begin <= up <= span.end && OnChain(tab, line, 0, up) && OnChain(tab, line, up, span.end)
            && (up != span.begin ==> !OnChain(tab, line, 0, span.begin) && line[span.begin] != SPACE)
            && (!OnChain(tab, line, 0, span.begin) ==> up != span.begin)
            && CountTo(tab, line, 0, up) == CountTo(tab, line, 0, span.begin)
  {
    hide NextBreak, CountTo;
    var up := Up(tab, line, span.begin);
    ChainBounds(tab, line, up, span.end);
    if up != span.begin {
      ChainStep(tab, line, span.begin - 1);
      CountInside(tab, line, 0, span.begin - 1, span.begin, up);
    }
  }

  /** Any two offsets in the cluster at `m`, past its start, have the same count. */
  lemma CountInside(tab: Table, text: bytes, start: nat, m: nat, a: nat, b: nat)
    requires OnChain(tab, text, start, m) && m < a <= b <= NextBreak(tab, text, m) && m < |text|
    ensures CountTo(tab, text, start, a) == CountTo(tab, text, start, b)
  {
    hide NextBreak, OnChain;
    CountSplit(tab, text, start, m, a);
    CountSplit(tab, text, start, m, b);
  }

  lemma RowTextIsPiece(tab: Table, line: bytes, number: nat, span: Span, limit: nat)
    requires AsciiTable(tab) && SpanFits(tab, line, span, limit)
    ensures Up(tab, line, span.begin) <= span.end
    ensures RowText(tab, line, RowAt(tab, line, number, span)) == Piece(tab, line, span)
    ensures CountTo(tab, line, Up(tab, line, span.begin), span.end) <= limit
  {
    hide NextBreak, OnChain, CountTo, Steps, RowAt, Up, AsciiTable;
    UpFacts(tab, line, span, limit);
    var up, row := Up(tab, line, span.begin), RowAt(tab, line, number, span);
    RowColumns(tab, line, number, span, limit);
    StepsReach(tab, line, 0, up);
    StepsReach(tab, line, up, span.end);
    CountSplit(tab, line, 0, up, span.end);
  }

  // ----- the rows of a line

  ghost function Pieces(tab: Table, line: bytes, spans: seq<Span>): seq<bytes>
    requires forall k :: 0 <= k < |spans| ==> Up(tab, line, spans[k].begin) <= spans[k].end <= |line|
  {
    seq(|spans|, k requires 0 <= k < |spans| => Piece(tab, line, spans[k]))
  }

  lemma SpansPieces(tab: Table, line: bytes, start: nat, limit: nat, breakWords: bool)
    requires AsciiTable(tab) && limit > 0 && Near(tab, line, start)
    ensures var spans := Spans(tab, line, start, limit, breakWords);
            && (forall k :: 0 <= k < |spans| ==>
                  SpanFits(tab, line, spans[k], limit)
                  && Up(tab, line, spans[k].begin) <= spans[k].end <= |line|)
            && |Pieces(tab, line, spans)| == |spans|
  {
    hide NextBreak, OnChain, CountTo, Spans, SkipSpaces, Up, AsciiTable, Piece;
    var spans := Spans(tab, line, start, limit, breakWords);
    forall k | 0 <= k < |spans|
      ensures SpanFits(tab, line, spans[k], limit) && Up(tab, line, spans[k].begin) <= spans[k].end <= |line|
    {
      SpanFacts(tab, line, start, limit, breakWords, k);
      UpFacts(tab, line, spans[k], limit);
    }
  }

  ghost function PiecesFrom(tab: Table, line: bytes, start: nat, limit: nat, breakWords: bool): seq<bytes>
    requires AsciiTable(tab) && limit > 0 && Near(tab, line, start)
  {
    SpansPieces(tab, line, start, limit, breakWords);
    Pieces(tab, line, Spans(tab, line, start, limit, breakWords))
  }

  ghost function LinePieces(tab: Table, line: bytes, limit: nat, breakWords: bool): seq<bytes>
    requires AsciiTable(tab) && limit > 0
  {
    OriginNear(tab, line);
    if line == [] then [[]] else PiecesFrom(tab, line, 0, limit, breakWords)
  }

  /** Every row's text fits the width and stays on one line. */
  lemma PiecesFit(tab: Table, line: bytes, limit: nat, breakWords: bool)
    requires AsciiTable(tab) && limit > 0 && LF !in line
    ensures var pieces := LinePieces(tab, line, limit, breakWords);
            forall k :: 0 <= k < |pieces| ==> LF !in pieces[k] && CountFrom(tab, pieces[k], 0) <= limit
  {
    hide NextBreak, OnChain, CountTo, Spans, Up, AsciiTable, SpanFits;
    if line != [] {
      OriginNear(tab, line);
      SpansPieces(tab, line, 0, limit, breakWords);
      var spans := Spans(tab, line, 0, limit, breakWords);
      forall k | 0 <= k < |spans|
        ensures LF !in Piece(tab, line, spans[k]) && CountFrom(tab, Piece(tab, line, spans[k]), 0) <= limit
      {
        PieceFits(tab, line, spans[k], limit);
      }
    }
  }

  lemma PieceFits(tab: Table, line: bytes, span: Span, limit: nat)
    requires AsciiTable(tab) && SpanFits(tab, line, span, limit) && LF !in line
    ensures Up(tab, line, span.begin) <= span.end
    ensures LF !in Piece(tab, line, span) && CountFrom(tab, Piece(tab, line, span), 0) <= limit
  {
    hide NextBreak, OnChain, CountTo, CountFrom, Up, AsciiTable, RowText;
    UpFacts(tab, line, span, limit);
    RowTextIsPiece(tab, line, 0, span, limit);
    SliceCount(tab, line, Up(tab, line, span.begin), span.end);
  }

  lemma LineRowTexts(tab: Table, text: bytes, number: nat, limit: nat, breakWords: bool)
    requires AsciiTable(tab) && limit > 0 && number < |LineStarts(text)|
    ensures var line := LineText(text, number);
            RowTexts(tab, text, LineRows(tab, line, number, limit, breakWords))
            == LinePieces(tab, line, limit, breakWords)
  {
    hide NextBreak, OnChain, CountTo, Spans, Up, AsciiTable, SpanFits, LineText, LineStarts, RowText, RowAt, RowsFrom;
    var line := LineText(text, number);
    if line == [] {
      EmptyRowText(tab, Row(Pos(number, 0), Pos(number, 0)));
    } else {
      OriginNear(tab, line);
      SpansPieces(tab, line, 0, limit, breakWords);
      RowsAreSpans(tab, line, number, 0, limit, breakWords);
      var spans := Spans(tab, line, 0, limit, breakWords);
      forall k | 0 <= k < |spans|
        ensures RowText(tab, line, RowAt(tab, line, number, spans[k])) == Piece(tab, line, spans[k])
        ensures RowAt(tab, line, number, spans[k]).start.line == number
      {
        RowTextIsPiece(tab, line, number, spans[k], limit);
        RowLines(tab, line, number, spans[k]);
      }
    }
  }

  lemma EmptyRowText(tab: Table, row: Row)
    ensures RowText(tab, [], row) == []
  {
  }

  /** The texts of the rows of lines `number` and later, line by line. */
  lemma NextRowTexts(tab: Table, text: bytes, number: nat, limit: nat, breakWords: bool)
    requires AsciiTable(tab) && limit > 0
    ensures RowTexts(tab, text, Rows(tab, text, number, limit, breakWords))
         == if number >= |LineStarts(text)| then []
            else LinePieces(tab, LineText(text, number), limit, breakWords)
                 + RowTexts(tab, text, Rows(tab, text, number + 1, limit, breakWords))
  {
    hide LineText, LineStarts, RowText, LineRows, LinePieces, Rows, AsciiTable;
    NextLineRows(tab, text, number, limit, breakWords);
    if number < |LineStarts(text)| {
      LineRowTexts(tab, text, number, limit, breakWords);
      RowTextsAppend(tab, text, LineRows(tab, LineText(text, number), number, limit, breakWords),
                     Rows(tab, text, number + 1, limit, breakWords));
    }
  }

  lemma RowTextsAppend(tab: Table, text: bytes, a: seq<Row>, b: seq<Row>)
    ensures RowTexts(tab, text, a + b) == RowTexts(tab, text, a) + RowTexts(tab, text, b)
  {
    hide RowText, LineText;
  }

  // ----- every line of the result fits

  lemma {:induction false} RowTextsFit(tab: Table, text: bytes, number: nat, limit: nat, breakWords: bool)
    requires AsciiTable(tab) && limit > 0
    ensures var pieces := RowTexts(tab, text, Rows(tab, text, number, limit, breakWords));
            forall k :: 0 <= k < |pieces| ==> LF !in pieces[k] && CountFrom(tab, pieces[k], 0) <= limit
    decreases |LineStarts(text)| - number
  {
    hide *;
    NextRowTexts(tab, text, number, limit, breakWords);
    if number < |LineStarts(text)| {
      LineTextIsSlice(text, number);
      PiecesFit(tab, LineText(text, number), limit, breakWords);
      RowTextsFit(tab, text, number + 1, limit, breakWords);
    }
  }

  /** Whatever the text, no line of the result is wider than the limit. */
  lemma ReflowFits(tab: Table, text: bytes, width: nat, breakWords: bool, number: nat)
    requires AsciiTable(tab)
    requires number < |LineStarts(Reflowed(tab, text, width, breakWords))|
    ensures CountFrom(tab, LineText(Reflowed(tab, text, width, breakWords), number), 0)
         <= if width == 0 then 1 else width
  {
    hide LineText, LineStarts, RowTexts, Rows, AsciiTable, Terminated, SplitFrom, CountFrom, ClustersFrom;
    var pieces := RowTexts(tab, text, Wrapped(tab, text, width, breakWords));
    assert Wrapped(tab, text, width, breakWords) == Rows(tab, text, 0, Limit(width), breakWords);
    RowTextsFit(tab, text, 0, Limit(width), breakWords);
    TerminateThenSplit(pieces);
    LinesOfText(Terminated(pieces));
    CountNothing(tab);
  }

  lemma CountNothing(tab: Table)
    ensures CountFrom(tab, [], 0) == 0
  {
  }

  // ----- the result stays as it is

  /** A line that fits is one row. */
  lemma FittingLine(tab: Table, line: bytes, limit: nat, breakWords: bool)
    requires AsciiTable(tab) && limit > 0 && CountFrom(tab, line, 0) <= limit
    ensures LinePieces(tab, line, limit, breakWords) == [line]
  {
    hide NextBreak, OnChain, CountTo, CountFrom, Spans, RowEnd, SkipSpaces, AsciiTable;
    if line != [] {
      OriginNear(tab, line);
      SpansPieces(tab, line, 0, limit, breakWords);
      var full := RowEndIsGreedy(tab, line, 0, limit, breakWords);
      CountToEnd(tab, line, 0);
      if full < |line| {
        CountStrict(tab, line, 0, full, |line|);
        assert false;
      }
      NextSpan(tab, line, 0, limit, breakWords);
      NoSpans(tab, line, limit, breakWords);
      var spans := Spans(tab, line, 0, limit, breakWords);
      assert spans == [spans[0]] + spans[1..] == [Span(0, |line|)];
      OriginUp(tab, line);
      assert line[0..|line|] == line;
    }
  }

  lemma OriginUp(tab: Table, line: bytes)
    ensures Up(tab, line, 0) == 0
  {
  }

  lemma {:induction false} FittingLines(tab: Table, text: bytes, number: nat, limit: nat, breakWords: bool)
    requires AsciiTable(tab) && limit > 0
    requires forall k :: number <= k < |LineStarts(text)| ==> CountFrom(tab, LineText(text, k), 0) <= limit
    ensures RowTexts(tab, text, Rows(tab, text, number, limit, breakWords)) == LinesFrom(text, number)
    decreases |LineStarts(text)| - number
  {
    hide *;
    NextLinesFrom(text, number);
    NextRowTexts(tab, text, number, limit, breakWords);
    if number < |LineStarts(text)| {
      FittingLine(tab, LineText(text, number), limit, breakWords);
      FittingLines(tab, text, number + 1, limit, breakWords);
    }
  }

  /** A text whose lines all fit gains one line feed and nothing else. */
  lemma ReflowOfFitting(tab: Table, text: bytes, width: nat, breakWords: bool)
    requires AsciiTable(tab)
    requires forall k :: 0 <= k < |LineStarts(text)| ==> CountFrom(tab, LineText(text, k), 0) <= Limit(width)
    ensures Reflowed(tab, text, width, breakWords) == text + [LF]
  {
    hide LineText, LineStarts, RowTexts, Rows, AsciiTable, Terminated, SplitFrom, CountFrom, LinesFrom;
    FittingLines(tab, text, 0, Limit(width), breakWords);
    LinesOfText(text);
    SplitThenTerminate(text, 0);
    assert text[0..] == text;
  }

  /** Reflowing again at the same width only adds one line feed, whatever the text. */
  lemma ReflowIsStable(tab: Table, text: bytes, width: nat, breakWords: bool, again: bool)
    requires AsciiTable(tab)
    ensures var once := Reflowed(tab, text, width, breakWords);
            Reflowed(tab, once, width, again) == once + [LF]
  {
    hide LineText, LineStarts, Reflowed, AsciiTable, CountFrom;
    var once := Reflowed(tab, text, width, breakWords);
    forall k | 0 <= k < |LineStarts(once)|
      ensures CountFrom(tab, LineText(once, k), 0) <= Limit(width)
    {
      ReflowFits(tab, text, width, breakWords, k);
    }
    ReflowOfFitting(tab, once, width, again);
  }

  // ----- what is kept

  /** The bytes other than spaces and line feeds, in order. */
  function Ink(text: bytes): bytes {
    if text == [] then []
    else (if text[0] == SPACE || text[0] == LF then [] else [text[0]]) + Ink(text[1..])
  }

  lemma {:induction false} InkAppend(a: bytes, b: bytes)
    ensures Ink(a + b) == Ink(a) + Ink(b)
  {
    if a == [] {
      assert a + b == b;
    } else {
      assert (a + b)[1..] == a[1..] + b;
      InkAppend(a[1..], b);
    }
  }

  lemma {:induction false} InkOfSpaces(spaces: bytes)
    requires forall i :: 0 <= i < |spaces| ==> spaces[i] == SPACE
    ensures Ink(spaces) == []
  {
    if spaces != [] {
      InkOfSpaces(spaces[1..]);
    }
  }

  lemma InkTerminatedCons(line: bytes, rest: seq<bytes>)
    ensures Ink(Terminated([line] + rest)) == Ink(line) + Ink(Terminated(rest))
  {
    hide Terminated;
    TerminatedCons(line, rest);
    InkAppend(line + [LF], Terminated(rest));
    InkAppend(line, [LF]);
    assert Ink([LF]) == [];
  }

  /** Every row of the line starts on a cluster boundary. */
  ghost predicate StartsOnBoundaries(tab: Table, line: bytes, spans: seq<Span>) {
    forall k :: 0 <= k < |spans| ==> OnChain(tab, line, 0, spans[k].begin)
  }

  /** Equal when everything is kept, and shorter when not. */
  ghost predicate Saved(before: bytes, after: bytes, kept: bool) {
    if kept then after == before else |after| < |before|
  }

  /** The four parts of a line from the start of a row on. */
  lemma CutAtRow(line: bytes, start: nat, up: nat, end: nat, next: nat)
    requires start <= up <= end <= next <= |line|
    requires forall i :: end <= i < next ==> line[i] == SPACE
    ensures Ink(line[start..]) == Ink(line[start..up]) + (Ink(line[up..end]) + Ink(line[next..]))
  {
    hide Ink;
    assert line[start..] == line[start..up] + (line[up..end] + (line[end..next] + line[next..]));
    InkOfParts(line[start..up], line[up..end], line[end..next], line[next..]);
  }

  lemma InkOfParts(a: bytes, b: bytes, spaces: bytes, c: bytes)
    requires forall i :: 0 <= i < |spaces| ==> spaces[i] == SPACE
    ensures Ink(a + (b + (spaces + c))) == Ink(a) + (Ink(b) + Ink(c))
  {
    hide Ink;
    InkAppend(a, b + (spaces + c));
    InkAppend(b, spaces + c);
    InkAppend(spaces, c);
    InkOfSpaces(spaces);
    assert [] + Ink(c) == Ink(c);
  }

  lemma {:induction false} InkOfRows(tab: Table, line: bytes, start: nat, limit: nat, breakWords: bool)
    requires AsciiTable(tab) && limit > 0 && Near(tab, line, start) && LF !in line
    ensures var spans := Spans(tab, line, start, limit, breakWords);
            Saved(Ink(line[start..]), Ink(Terminated(PiecesFrom(tab, line, start, limit, breakWords))),
                  StartsOnBoundaries(tab, line, spans))
    decreases |line| - start
  {
    hide NextBreak, OnChain, CountTo, Spans, RowEnd, SkipSpaces, AsciiTable, Ink, Terminated, SpanFits, Up, Near;
    SpansPieces(tab, line, start, limit, breakWords);
    NoSpans(tab, line, limit, breakWords);
    TerminatedNothing();
    assert Ink([]) == [] by { InkOfSpaces([]); }
    StartInside(tab, line, start);
    var spans := Spans(tab, line, start, limit, breakWords);
    if start < |line| {
      NextSpan(tab, line, start, limit, breakWords);
      var span, next := spans[0], SkipSpaces(line, spans[0].end);
      var up, rest := Up(tab, line, start), spans[1..];
      UpFacts(tab, line, span, limit);
      EndOnChain(tab, line, span, limit);
      SkipNear(tab, line, span.end);
      InkOfRows(tab, line, next, limit, breakWords);
      CutAtRow(line, start, up, span.end, next);
      PiecesCons(tab, line, spans);
      InkTerminatedCons(Piece(tab, line, span), Pieces(tab, line, rest));
      InkStarts(line, start, up);
      BoundariesCons(tab, line, spans);
    } else {
      assert line[start..] == [];
    }
  }

  lemma PiecesCons(tab: Table, line: bytes, spans: seq<Span>)
    requires spans != []
    requires forall k :: 0 <= k < |spans| ==> Up(tab, line, spans[k].begin) <= spans[k].end <= |line|
    ensures Pieces(tab, line, spans) == [Piece(tab, line, spans[0])] + Pieces(tab, line, spans[1..])
  {
    hide Up;
  }

  lemma BoundariesCons(tab: Table, line: bytes, spans: seq<Span>)
    requires spans != []
    ensures StartsOnBoundaries(tab, line, spans)
       <==> OnChain(tab, line, 0, spans[0].begin) && StartsOnBoundaries(tab, line, spans[1..])
  {
    hide OnChain;
    if StartsOnBoundaries(tab, line, spans[1..]) {
      assert forall k :: 0 < k < |spans| ==> spans[k] == spans[1..][k - 1];
    }
  }

  lemma InkStarts(line: bytes, start: nat, up: nat)
    requires start <= up <= |line| && LF !in line
    ensures start == up ==> Ink(line[start..up]) == []
    ensures start < up && line[start] != SPACE ==> |Ink(line[start..up])| > 0
  {
  }

  /** At this width, no row of the line starts inside a cluster. */
  ghost predicate KeepsLine(tab: Table, line: bytes, limit: nat, breakWords: bool)
    requires limit > 0
  {
    StartsOnBoundaries(tab, line, Spans(tab, line, 0, limit, breakWords))
  }

  ghost predicate KeepsLines(tab: Table, text: bytes, number: nat, limit: nat, breakWords: bool)
    requires limit > 0
  {
    forall k :: number <= k < |LineStarts(text)| ==> KeepsLine(tab, LineText(text, k), limit, breakWords)
  }

  lemma InkOfLine(tab: Table, line: bytes, limit: nat, breakWords: bool)
    requires AsciiTable(tab) && limit > 0 && LF !in line
    ensures Saved(Ink(line), Ink(Terminated(LinePieces(tab, line, limit, breakWords))),
                  KeepsLine(tab, line, limit, breakWords))
  {
    hide PiecesFrom, NextBreak, AsciiTable, Spans, Near, Terminated;
    if line == [] {
      EmptyLine();
      NoSpans(tab, line, limit, breakWords);
    } else {
      OriginNear(tab, line);
      InkOfRows(tab, line, 0, limit, breakWords);
      assert line[0..] == line;
    }
  }

  lemma {:induction false} InkOfLines(tab: Table, text: bytes, number: nat, limit: nat, breakWords: bool)
    requires AsciiTable(tab) && limit > 0
    ensures Saved(Ink(Terminated(LinesFrom(text, number))),
                  Ink(Terminated(RowTexts(tab, text, Rows(tab, text, number, limit, breakWords)))),
                  KeepsLines(tab, text, number, limit, breakWords))
    decreases |LineStarts(text)| - number
  {
    hide *;
    NextRowTexts(tab, text, number, limit, breakWords);
    NextLinesFrom(text, number);
    KeepsStep(tab, text, number, limit, breakWords);
    if number < |LineStarts(text)| {
      var line := LineText(text, number);
      var pieces := LinePieces(tab, line, limit, breakWords);
      var rest := RowTexts(tab, text, Rows(tab, text, number + 1, limit, breakWords));
      LineTextIsSlice(text, number);
      InkOfLine(tab, line, limit, breakWords);
      InkOfLines(tab, text, number + 1, limit, breakWords);
      InkTerminatedCons(line, LinesFrom(text, number + 1));
      TerminatedAppend(pieces, rest);
      InkAppend(Terminated(pieces), Terminated(rest));
      SavedAppend(Ink(line), Ink(Terminated(pieces)), KeepsLine(tab, line, limit, breakWords),
                  Ink(Terminated(LinesFrom(text, number + 1))), Ink(Terminated(rest)),
                  KeepsLines(tab, text, number + 1, limit, breakWords));
    } else {
      SavedNothing();
    }
  }

  lemma SavedNothing()
    ensures Saved(Ink(Terminated([])), Ink(Terminated([])), true)
  {
  }

  lemma SavedAppend(a: bytes, b: bytes, keptHere: bool, c: bytes, d: bytes, keptThere: bool)
    requires Saved(a, b, keptHere) && Saved(c, d, keptThere)
    ensures Saved(a + c, b + d, keptHere && keptThere)
  {
  }

  lemma KeepsStep(tab: Table, text: bytes, number: nat, limit: nat, breakWords: bool)
    requires limit > 0
    ensures KeepsLines(tab, text, number, limit, breakWords)
         == if number >= |LineStarts(text)| then true
            else KeepsLine(tab, LineText(text, number), limit, breakWords)
                 && KeepsLines(tab, text, number + 1, limit, breakWords)
  {
    hide KeepsLine, LineStarts, LineText;
  }

  /** Reflowing at one width keeps every other byte, in order, exactly when no row starts inside a cluster. */
  lemma ReflowKeepsAtWidth(tab: Table, text: bytes, width: nat, breakWords: bool)
    requires AsciiTable(tab)
    ensures Ink(Reflowed(tab, text, width, breakWords)) == Ink(text)
       <==> KeepsLines(tab, text, 0, Limit(width), breakWords)
    ensures |Ink(Reflowed(tab, text, width, breakWords))| <= |Ink(text)|
  {
    hide LinesFrom, RowTexts, Rows, KeepsLines, SplitFrom, Terminated, AsciiTable, LineStarts, LineText;
    InkOfLines(tab, text, 0, Limit(width), breakWords);
    LinesOfText(text);
    SplitThenTerminate(text, 0);
    assert text[0..] == text;
    InkAppend(text, [LF]);
    assert Ink([LF]) == [];
  }

  // ----- the exact condition

  /** At width one, the rows reach every space, and skipping a severed one starts a row inside its cluster. */
  lemma {:induction false} SeveredAtWidthOne(tab: Table, line: bytes, start: nat, breakWords: bool, i: nat)
    returns (k: nat)
    requires AsciiTable(tab) && OnChain(tab, line, 0, start) && OnChain(tab, line, 0, i)
    requires start < i < |line| && line[i] == SPACE && NextBreak(tab, line, i) != i + 1
    ensures var spans := Spans(tab, line, start, 1, breakWords);
            k < |spans| && !OnChain(tab, line, 0, spans[k].begin)
    decreases |line| - start
  {
    hide NextBreak, OnChain, CountTo, Spans, RowEnd, AsciiTable, SkipSpaces;
    var spans := Spans(tab, line, start, 1, breakWords);
    NextSpan(tab, line, start, 1, breakWords);
    var end := RowEnd(tab, line, start, 1, breakWords);
    WidthOneRow(tab, line, start, breakWords, i);
    var next := SkipSpaces(line, end);
    SpaceBreak(tab, line, i);
    assert next != i;
    assert i < next ==> next == i + 1;
    SpanAfter(tab, line, start, 1, breakWords);
    if i < next {
      NotBoundary(tab, line, i);
      k := 1;
    } else if OnChain(tab, line, 0, next) {
      var below := SeveredAtWidthOne(tab, line, next, breakWords, i);
      k := below + 1;
      assert spans[k] == spans[1..][below];
    } else {
      k := 1;
    }
  }

  /** The second row starts after the first and its spaces. */
  lemma SpanAfter(tab: Table, line: bytes, start: nat, limit: nat, breakWords: bool)
    requires start < |line| && limit > 0
    ensures var spans := Spans(tab, line, start, limit, breakWords);
            var next := SkipSpaces(line, RowEnd(tab, line, start, limit, breakWords));
            next < |line| ==> |spans| > 1 && spans[1].begin == next
  {
    hide RowEnd, SkipSpaces, Spans;
    NextSpan(tab, line, start, limit, breakWords);
    var spans := Spans(tab, line, start, limit, breakWords);
    var next := SkipSpaces(line, RowEnd(tab, line, start, limit, breakWords));
    if next < |line| {
      NextSpan(tab, line, next, limit, breakWords);
      assert spans[1] == spans[1..][0];
    }
  }

  lemma WidthOneRow(tab: Table, line: bytes, start: nat, breakWords: bool, i: nat)
    requires start < i < |line| && OnChain(tab, line, 0, start) && OnChain(tab, line, 0, i)
    ensures RowEnd(tab, line, start, 1, breakWords) <= i
  {
    hide NextBreak, RowEnd;
    var end := RowEnd(tab, line, start, 1, breakWords);
    RowEndFits(tab, line, start, 1, breakWords);
    ChainSplit(tab, line, 0, start, i);
    var first := NextBreak(tab, line, start);
    ChainBounds(tab, line, first, i);
    assert CountTo(tab, line, first, end) == 0;
  }

  lemma NotBoundary(tab: Table, line: bytes, i: nat)
    requires i < |line| && OnChain(tab, line, 0, i) && NextBreak(tab, line, i) > i + 1
    ensures !OnChain(tab, line, 0, i + 1)
  {
    hide NextBreak;
    if OnChain(tab, line, 0, i + 1) {
      ChainSplit(tab, line, 0, i, i + 1);
      ChainBounds(tab, line, NextBreak(tab, line, i), i + 1);
    }
  }

  /** A line survives every width exactly when none of its spaces is extended. */
  lemma KeepsLineExactly(tab: Table, line: bytes, breakWords: bool)
    requires AsciiTable(tab)
    ensures SpacesAlone(tab, line) ==> forall limit: nat :: limit > 0 ==> KeepsLine(tab, line, limit, breakWords)
    ensures !SpacesAlone(tab, line) ==> !KeepsLine(tab, line, 1, breakWords)
  {
    hide NextBreak, OnChain, Spans, AsciiTable, SkipSpaces;
    if SpacesAlone(tab, line) {
      OriginNear(tab, line);
      forall limit: nat, k | limit > 0 && 0 <= k < |Spans(tab, line, 0, limit, breakWords)|
        ensures OnChain(tab, line, 0, Spans(tab, line, 0, limit, breakWords)[k].begin)
      {
        SpanFacts(tab, line, 0, limit, breakWords, k);
        AloneNotSevered(tab, line, Spans(tab, line, 0, limit, breakWords)[k].begin);
      }
    } else {
      var i :| 0 < i < |line| && OnChain(tab, line, 0, i) && line[i] == SPACE && NextBreak(tab, line, i) != i + 1;
      OriginOnChain(tab, line);
      var k := SeveredAtWidthOne(tab, line, 0, breakWords, i);
    }
  }

  lemma OriginOnChain(tab: Table, line: bytes)
    ensures OnChain(tab, line, 0, 0)
  {
  }

  ghost predicate AllSpacesAlone(tab: Table, text: bytes) {
    forall n :: 0 <= n < |LineStarts(text)| ==> SpacesAlone(tab, LineText(text, n))
  }

  /**
   * Reflowing keeps every byte other than spaces and line feeds, in order, at every width, exactly
   * when no space is extended; otherwise width one already loses some.
   */
  lemma ReflowKeepsText(tab: Table, text: bytes, breakWords: bool)
    requires AsciiTable(tab)
    ensures (forall width: nat :: Ink(Reflowed(tab, text, width, breakWords)) == Ink(text))
       <==> AllSpacesAlone(tab, text)
    ensures AllSpacesAlone(tab, text) <==> Ink(Reflowed(tab, text, 1, breakWords)) == Ink(text)
  {
    hide LineText, LineStarts, Reflowed, KeepsLine, Ink, AsciiTable, SpacesAlone;
    if AllSpacesAlone(tab, text) {
      forall width: nat
        ensures Ink(Reflowed(tab, text, width, breakWords)) == Ink(text)
      {
        ReflowKeepsAtWidth(tab, text, width, breakWords);
        forall n | 0 <= n < |LineStarts(text)|
          ensures KeepsLine(tab, LineText(text, n), Limit(width), breakWords)
        {
          KeepsLineExactly(tab, LineText(text, n), breakWords);
        }
      }
    } else {
      var n :| 0 <= n < |LineStarts(text)| && !SpacesAlone(tab, LineText(text, n));
      KeepsLineExactly(tab, LineText(text, n), breakWords);
      ReflowKeepsAtWidth(tab, text, 1, breakWords);
    }
  }

  /** No space of the text is followed by an extending code point. */
  ghost predicate NoSpaceExtended(tab: Table, text: bytes) {
    forall i :: 0 <= i < |text| - 1 && text[i] == SPACE ==> !Extends(tab(NextCodepoint(text, i + 1).value))
  }

  /** The condition on code points is enough for the one on clusters. */
  lemma NoSpaceExtendedIsEnough(tab: Table, text: bytes)
    requires AsciiTable(tab) && NoSpaceExtended(tab, text)
    ensures AllSpacesAlone(tab, text)
  {
    hide NextBreak, OnChain, LineStarts, LineText, NextCodepoint, AsciiTable;
    forall n | 0 <= n < |LineStarts(text)|
      ensures SpacesAlone(tab, LineText(text, n))
    {
      var line := LineText(text, n);
      forall i | 0 < i < |line| && OnChain(tab, line, 0, i) && line[i] == SPACE
        ensures NextBreak(tab, line, i) == i + 1
      {
        SpaceBreak(tab, line, i);
        if i + 1 < |line| {
          CodepointInLine(text, n, i + 1);
          LineTextIsSlice(text, n);
          assert text[LineStarts(text)[n] + i] == line[i];
        }
      }
    }
  }

  /** A line's code points are those of the text. */
  lemma CodepointInLine(text: bytes, n: nat, i: nat)
    requires n < |LineStarts(text)| && i < |LineText(text, n)|
    ensures LineStarts(text)[n] + i < |text|
    ensures NextCodepoint(LineText(text, n), i).value == NextCodepoint(text, LineStarts(text)[n] + i).value
  {
    hide LineStarts, LineText, NextCodepoint;
    LineTextIsSlice(text, n);
    LineHasNoFeed(text, n);
    var start, end := LineStarts(text)[n], LineEnd(LineStarts(text), text, n);
    var front, rest := text[..start], text[start..];
    assert text == front + rest;
    CodepointSuffix(front, rest, i);
    if end < |text| {
      CodepointBeforeAscii(rest, i, end - start);
    }
    CodepointTruncated(rest, i, end - start);
    assert rest[..end - start] == LineText(text, n);
  }
}
