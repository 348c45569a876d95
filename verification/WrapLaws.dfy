/** What the rows of `soft_wrap` cover, and when its two maps undo one another. */
module WrapLaws {
  import opened Bytes
  import opened Grapheme
  import opened Clusters
  import opened LineIndexes
  import opened TextBuffer
  import opened WordWrap

  // ----- spaces

  predicate Extends(p: Property) {
    p in {Extend, Zwj, SpacingMark}
  }

  /** A space is a cluster of its own exactly when no extending code point follows it. */
  lemma SpaceBreak(tab: Table, line: bytes, i: nat)
    requires AsciiTable(tab) && i < |line| && line[i] == SPACE
    ensures NextBreak(tab, line, i) == i + 1
       <==> i + 1 == |line| || !Extends(tab(NextCodepoint(line, i + 1).value))
    ensures NextBreak(tab, line, i) != i + 1 ==>
              && i + 1 < |line| && line[i + 1] != SPACE
              && NextBreak(tab, line, i + 1) == NextBreak(tab, line, i)
  {
    hide NextCodepoint;
    CodepointBeforeAscii(line, i, i);
    if i + 1 < |line| {
      if line[i + 1] == SPACE {
        CodepointBeforeAscii(line, i + 1, i + 1);
      }
      var c := NextCodepoint(line, i + 1);
      assert BreakFrom(tab, line, i + 1, StartScan(Other))
          == if Extends(tab(c.value)) then BreakFrom(tab, line, c.end, StartScan(tab(c.value))) else i + 1;
    }
  }

  /** Past the first cluster of the line, every cluster that starts with a space is that space. */
  ghost predicate SpacesAlone(tab: Table, line: bytes) {
    forall i :: 0 < i < |line| && OnChain(tab, line, 0, i) && line[i] == SPACE ==> NextBreak(tab, line, i) == i + 1
  }

  /** `b` cuts a cluster in two, just after the space it starts with. */
  ghost predicate Severed(tab: Table, line: bytes, b: nat) {
    && 1 < b < |line|
    && OnChain(tab, line, 0, b - 1)
    && line[b - 1] == SPACE && line[b] != SPACE
    && NextBreak(tab, line, b - 1) == NextBreak(tab, line, b)
  }

  /** Where rows can start. */
  ghost predicate Near(tab: Table, line: bytes, b: nat) {
    b <= |line| && (OnChain(tab, line, 0, b) || Severed(tab, line, b))
  }

  lemma {:induction false} SkipNear(tab: Table, line: bytes, e: nat)
    requires AsciiTable(tab) && 0 < e <= |line| && OnChain(tab, line, 0, e)
    ensures Near(tab, line, SkipSpaces(line, e))
    decreases |line| - e
  {
    hide NextBreak, OnChain, AsciiTable;
    if e < |line| && line[e] == SPACE {
      SpaceBreak(tab, line, e);
      if NextBreak(tab, line, e) == e + 1 {
        ChainStep(tab, line, e);
        SkipNear(tab, line, e + 1);
      } else {
        assert Severed(tab, line, e + 1);
        assert SkipSpaces(line, e + 1) == e + 1;
      }
    }
  }

  lemma ChainStep(tab: Table, line: bytes, e: nat)
    requires e < |line| && OnChain(tab, line, 0, e)
    ensures OnChain(tab, line, 0, NextBreak(tab, line, e))
  {
    hide NextBreak;
    assert OnChain(tab, line, e, NextBreak(tab, line, e));
    ChainCompose(tab, line, 0, e, NextBreak(tab, line, e));
  }

  /** From a row start, the next boundaries are those of the whole line. */
  lemma NearReach(tab: Table, line: bytes, b: nat, e: nat)
    requires Near(tab, line, b) && b < e && OnChain(tab, line, b, e)
    ensures OnChain(tab, line, 0, e)
  {
    hide NextBreak;
    if OnChain(tab, line, 0, b) {
      ChainCompose(tab, line, 0, b, e);
    } else {
      assert OnChain(tab, line, b - 1, e);
      ChainCompose(tab, line, 0, b - 1, e);
    }
  }

  lemma AloneNotSevered(tab: Table, line: bytes, b: nat)
    requires SpacesAlone(tab, line) && Near(tab, line, b)
    ensures OnChain(tab, line, 0, b)
  {
    hide NextBreak, OnChain;
    assert b < |line| ==> NextBreak(tab, line, b) > b;
  }

  // ----- counting

  /** The column of a row start or end is the number of clusters that start before it. */
  lemma ColumnCounts(tab: Table, line: bytes, b: nat)
    requires AsciiTable(tab) && Near(tab, line, b)
    ensures Column(tab, line, b) == CountTo(tab, line, 0, b)
  {
    hide NextBreak, NextCodepoint, CountFrom, OnChain, AsciiTable;
    CountToEnd(tab, line[..b], 0);
    if OnChain(tab, line, 0, b) {
      ChainTruncated(tab, line, 0, b, b);
    } else {
      SpaceCodepoint(line, b - 1);
      ChainCutInside(tab, line, 0, b - 1, b);
      CountSplit(tab, line, 0, b - 1, b);
      CountSplit(tab, line[..b], 0, b - 1, b);
      assert CountTo(tab, line, b - 1, b) == 1;
      assert CountTo(tab, line[..b], b - 1, b) == 1;
    }
  }

  lemma SpaceCodepoint(line: bytes, i: nat)
    requires i < |line| && line[i] == SPACE
    ensures NextCodepoint(line, i).end == i + 1
  {
    CodepointBeforeAscii(line, i, i);
  }

  // ----- one row

  /** No cluster that starts in `from..to` starts with a space or a tab. */
  ghost predicate NoBlank(tab: Table, line: bytes, from: nat, to: nat) {
    forall b :: from <= b < to <= |line| && OnChain(tab, line, from, b) ==>
      line[b] != SPACE && line[b] != TAB
  }

  lemma {:induction false} FillFacts(tab: Table, line: bytes, end: nat, columns: nat, limit: nat, lastSpace: nat)
    requires end <= |line| && columns <= limit
    ensures var r := Fill(tab, line, end, columns, limit, lastSpace);
            && OnChain(tab, line, end, r.end)
            && columns + CountTo(tab, line, end, r.end) <= limit
            && (r.end < |line| ==> columns + CountTo(tab, line, end, r.end) == limit)
    decreases |line| - end
  {
    hide NextBreak;
    if end < |line| && columns < limit {
      var next := NextBreak(tab, line, end);
      FillFacts(tab, line, next, columns + 1, limit, if Blank(line[end]) then next else lastSpace);
    }
  }

  lemma {:induction false} FillBlank(tab: Table, line: bytes, end: nat, columns: nat, limit: nat, lastSpace: nat)
    returns (b: nat)
    requires end <= |line|
    ensures var r := Fill(tab, line, end, columns, limit, lastSpace);
            || (r.lastSpace == lastSpace && NoBlank(tab, line, end, r.end))
            || (&& end <= b < r.end && OnChain(tab, line, end, b) && (line[b] == SPACE || line[b] == TAB)
                && NextBreak(tab, line, b) == r.lastSpace && NoBlank(tab, line, r.lastSpace, r.end))
    decreases |line| - end
  {
    hide NextBreak;
    b := end;
    if end < |line| && columns < limit {
      var next := NextBreak(tab, line, end);
      var last := if Blank(line[end]) then next else lastSpace;
      b := FillBlank(tab, line, next, columns + 1, limit, last);
      var r := Fill(tab, line, next, columns + 1, limit, last);
      if r.lastSpace == last && NoBlank(tab, line, next, r.end) {
        b := end;
        if !Blank(line[end]) {
          NoBlankStep(tab, line, end, r.end);
        }
      }
    }
  }

  lemma NoBlankStep(tab: Table, line: bytes, from: nat, to: nat)
    requires from < to <= |line| && line[from] != SPACE && line[from] != TAB
    requires NoBlank(tab, line, NextBreak(tab, line, from), to)
    ensures NoBlank(tab, line, from, to)
  {
    hide NextBreak;
    forall b | from <= b < to && OnChain(tab, line, from, b)
      ensures line[b] != SPACE && line[b] != TAB
    {
      if b != from {
        ChainBounds(tab, line, NextBreak(tab, line, from), b);
      }
    }
  }

  /**
   * A row takes all the clusters that fit, unless the line goes on: then, when words may be broken
   * off, it ends after the last blank among them, if there is one.
   */
  lemma RowEndIsGreedy(tab: Table, line: bytes, start: nat, limit: nat, breakWords: bool) returns (full: nat)
    requires start < |line| && limit > 0
    ensures start < full <= |line| && OnChain(tab, line, start, full)
    ensures CountTo(tab, line, start, full) <= limit
    ensures full < |line| ==> CountTo(tab, line, start, full) == limit
    ensures var end := RowEnd(tab, line, start, limit, breakWords);
            if full == |line| || !breakWords || NoBlank(tab, line, start, full) then end == full
            else
              && end <= full && NoBlank(tab, line, end, full)
              && exists b :: start <= b < full && OnChain(tab, line, start, b) && (line[b] == SPACE || line[b] == TAB)
                             && NextBreak(tab, line, b) == end
  {
    hide NextBreak;
    var r := Fill(tab, line, start, 0, limit, start);
    full := r.end;
    FillFacts(tab, line, start, 0, limit, start);
    var b := FillBlank(tab, line, start, 0, limit, start);
    if start <= b < full && OnChain(tab, line, start, b) && (line[b] == SPACE || line[b] == TAB) {
      assert !NoBlank(tab, line, start, full);
    }
  }

  lemma RowEndFits(tab: Table, line: bytes, start: nat, limit: nat, breakWords: bool)
    requires start < |line| && limit > 0
    ensures var end := RowEnd(tab, line, start, limit, breakWords);
            OnChain(tab, line, start, end) && CountTo(tab, line, start, end) <= limit
  {
    hide NextBreak, CountTo, RowEnd, NoBlank;
    var full := RowEndIsGreedy(tab, line, start, limit, breakWords);
    var end := RowEnd(tab, line, start, limit, breakWords);
    if end != full {
      var b :| start <= b < full && OnChain(tab, line, start, b) && (line[b] == SPACE || line[b] == TAB)
               && NextBreak(tab, line, b) == end;
      assert OnChain(tab, line, b, end);
      ChainCompose(tab, line, start, b, end);
    }
    CountMonotone(tab, line, start, end, full);
  }

  // ----- the rows of a line

  ghost predicate SpanFits(tab: Table, line: bytes, span: Span, limit: nat) {
    && span.begin < span.end <= |line|
    && Near(tab, line, span.begin)
    && OnChain(tab, line, span.begin, span.end)
    && OnChain(tab, line, 0, span.end)
    && CountTo(tab, line, span.begin, span.end) <= limit
  }

  lemma NextSpan(tab: Table, line: bytes, start: nat, limit: nat, breakWords: bool)
    requires start < |line| && limit > 0
    ensures var spans, end := Spans(tab, line, start, limit, breakWords), RowEnd(tab, line, start, limit, breakWords);
            spans != [] && spans[0] == Span(start, end)
            && spans[1..] == Spans(tab, line, SkipSpaces(line, end), limit, breakWords)
  {
    hide RowEnd, SkipSpaces;
  }

  /** Row `k` fits, and only spaces lie between it and the next row. */
  lemma {:induction false} SpanFacts(tab: Table, line: bytes, start: nat, limit: nat, breakWords: bool, k: nat)
    requires AsciiTable(tab) && limit > 0 && Near(tab, line, start)
    requires k < |Spans(tab, line, start, limit, breakWords)|
    ensures var spans := Spans(tab, line, start, limit, breakWords);
            && SpanFits(tab, line, spans[k], limit)
            && (k + 1 < |spans| ==> spans[k + 1].begin == SkipSpaces(line, spans[k].end))
            && (k + 1 == |spans| ==> SkipSpaces(line, spans[k].end) == |line|)
    decreases |line| - start
  {
    hide NextBreak, OnChain, CountTo, RowEnd, Near, AsciiTable, SkipSpaces, Spans;
    NoSpans(tab, line, limit, breakWords);
    StartInside(tab, line, start);
    if start < |line| {
      NextSpan(tab, line, start, limit, breakWords);
      var end := RowEnd(tab, line, start, limit, breakWords);
      RowEndFits(tab, line, start, limit, breakWords);
      NearReach(tab, line, start, end);
      SkipNear(tab, line, end);
      var next := SkipSpaces(line, end);
      var spans := Spans(tab, line, start, limit, breakWords);
      if next < |line| {
        NextSpan(tab, line, next, limit, breakWords);
      }
      if k > 0 {
        SpanFacts(tab, line, next, limit, breakWords, k - 1);
        assert spans[k] == spans[1..][k - 1];
        assert k + 1 < |spans| ==> spans[k + 1] == spans[1..][k];
      } else {
        assert |spans| > 1 ==> spans[1] == spans[1..][0];
      }
    }
  }

  lemma NoSpans(tab: Table, line: bytes, limit: nat, breakWords: bool)
    requires limit > 0
    ensures Spans(tab, line, |line|, limit, breakWords) == []
  {
  }

  lemma StartInside(tab: Table, line: bytes, start: nat)
    requires Near(tab, line, start)
    ensures start <= |line|
  {
  }

  /** Spans are in order, and touch only when they are neighbours. */
  lemma {:induction false} SpansInOrder(tab: Table, line: bytes, limit: nat, breakWords: bool, j: nat, k: nat)
    requires AsciiTable(tab) && limit > 0
    requires j < k < |Spans(tab, line, 0, limit, breakWords)|
    ensures var spans := Spans(tab, line, 0, limit, breakWords);
            && spans[j].end <= spans[k].begin
            && (spans[j].end == spans[k].begin ==> j + 1 == k)
    decreases k - j
  {
    hide NextBreak, AsciiTable, Spans, SkipSpaces, SpanFits;
    SpanFacts(tab, line, 0, limit, breakWords, j);
    if j + 1 < k {
      SpansInOrder(tab, line, limit, breakWords, j + 1, k);
    }
  }

  /** A byte in no row is a space. */
  lemma {:induction false} SpanOf(tab: Table, line: bytes, start: nat, limit: nat, breakWords: bool, b: nat)
    returns (k: nat)
    requires limit > 0 && start <= b < |line|
    ensures var spans := Spans(tab, line, start, limit, breakWords);
            || line[b] == SPACE
            || (k < |spans| && spans[k].begin <= b < spans[k].end)
    decreases |line| - start
  {
    hide NextBreak, Spans, SkipSpaces, RowEnd;
    NextSpan(tab, line, start, limit, breakWords);
    k := 0;
    var next := SkipSpaces(line, RowEnd(tab, line, start, limit, breakWords));
    if next <= b {
      var below := SpanOf(tab, line, next, limit, breakWords, b);
      k := below + 1;
      var spans := Spans(tab, line, start, limit, breakWords);
      assert k < |spans| ==> spans[k] == spans[1..][below];
    }
  }

  lemma {:induction false} RowsAreSpans(tab: Table, line: bytes, number: nat, start: nat, limit: nat, breakWords: bool)
    requires limit > 0 && start <= |line|
    ensures var spans := Spans(tab, line, start, limit, breakWords);
            var rows := RowsFrom(tab, line, number, start, limit, breakWords);
            && |rows| == |spans|
            && forall k :: 0 <= k < |rows| ==> rows[k] == RowAt(tab, line, number, spans[k])
    decreases |line| - start
  {
    hide RowEnd, RowAt, SkipSpaces, RowsFrom, Spans;
    NextRow(tab, line, number, start, limit, breakWords);
    if start < |line| {
      NextSpan(tab, line, start, limit, breakWords);
      var next := SkipSpaces(line, RowEnd(tab, line, start, limit, breakWords));
      RowsAreSpans(tab, line, number, next, limit, breakWords);
      var rows := RowsFrom(tab, line, number, start, limit, breakWords);
      var spans := Spans(tab, line, start, limit, breakWords);
      assert forall k :: 0 < k < |rows| ==> rows[k] == rows[1..][k - 1] && spans[k] == spans[1..][k - 1];
    } else {
      NoSpans(tab, line, limit, breakWords);
    }
  }

  /** A row's columns: it has at most `limit`, and all its clusters unless it starts inside one. */
  lemma RowColumns(tab: Table, line: bytes, number: nat, span: Span, limit: nat)
    requires AsciiTable(tab) && SpanFits(tab, line, span, limit)
    ensures var row := RowAt(tab, line, number, span);
            && row.start.col == CountTo(tab, line, 0, span.begin)
            && row.end.col == CountTo(tab, line, 0, span.end)
            && 0 <= RowLength(row) <= limit
            && (OnChain(tab, line, 0, span.begin) ==> RowLength(row) == CountTo(tab, line, span.begin, span.end) > 0)
            && (!OnChain(tab, line, 0, span.begin) ==>
                  RowLength(row) == CountTo(tab, line, span.begin, span.end) - 1)
  {
    hide NextBreak, OnChain, Column, AsciiTable;
    ColumnCounts(tab, line, span.begin);
    ColumnCounts(tab, line, span.end);
    CountMonotone(tab, line, 0, span.begin, span.end);
    if OnChain(tab, line, 0, span.begin) {
      CountSplit(tab, line, 0, span.begin, span.end);
    } else {
      CountSplit(tab, line, 0, span.begin - 1, span.begin);
      CountSplit(tab, line, 0, span.begin - 1, span.end);
      assert CountTo(tab, line, span.begin - 1, span.begin) == 1;
    }
  }

  // ----- the rows of the text

  /** The shape of every wrap map: each row is on one line and at most `limit` columns long. */
  predicate Shaped(rows: seq<Row>, limit: nat) {
    forall k :: 0 <= k < |rows| ==> rows[k].start.line == rows[k].end.line && 0 <= RowLength(rows[k]) <= limit
  }

  /** Rows follow the text; those of one line do not overlap, and touch only when they are neighbours. */
  predicate Ordered(rows: seq<Row>) {
    forall j, k :: 0 <= j < k < |rows| ==>
      && rows[j].start.line <= rows[k].start.line
      && (rows[j].start.line == rows[k].start.line ==>
            && rows[j].end.col <= rows[k].start.col
            && (rows[j].end.col == rows[k].start.col ==> j + 1 == k))
  }

  lemma LineRowsShaped(tab: Table, line: bytes, number: nat, limit: nat, breakWords: bool)
    requires AsciiTable(tab) && limit > 0
    ensures var rows := LineRows(tab, line, number, limit, breakWords);
            && rows != [] && Shaped(rows, limit) && Ordered(rows)
            && (forall k :: 0 <= k < |rows| ==> rows[k].start.line == number)
  {
    hide NextBreak, AsciiTable, OnChain, RowsFrom, Spans, SpanFits, RowAt, SkipSpaces;
    if line != [] {
      RowsAreSpans(tab, line, number, 0, limit, breakWords);
      NextSpan(tab, line, 0, limit, breakWords);
      OriginNear(tab, line);
      var spans := Spans(tab, line, 0, limit, breakWords);
      var rows := LineRows(tab, line, number, limit, breakWords);
      forall k | 0 <= k < |rows|
        ensures rows[k].start.line == rows[k].end.line == number && 0 <= RowLength(rows[k]) <= limit
      {
        SpanFacts(tab, line, 0, limit, breakWords, k);
        RowColumns(tab, line, number, spans[k], limit);
        RowLines(tab, line, number, spans[k]);
      }
      forall j, k | 0 <= j < k < |rows|
        ensures rows[j].end.col <= rows[k].start.col
        ensures rows[j].end.col == rows[k].start.col ==> j + 1 == k
      {
        SpanFacts(tab, line, 0, limit, breakWords, j);
        SpanFacts(tab, line, 0, limit, breakWords, k);
        RowColumns(tab, line, number, spans[j], limit);
        RowColumns(tab, line, number, spans[k], limit);
        SpansInOrder(tab, line, limit, breakWords, j, k);
        CountMonotone(tab, line, 0, spans[j].end, spans[k].begin);
        if spans[j].end < spans[k].begin {
          EndOnChain(tab, line, spans[j], limit);
          CountStrict(tab, line, 0, spans[j].end, spans[k].begin);
        }
      }
    }
  }

  lemma RowLines(tab: Table, line: bytes, number: nat, span: Span)
    requires span.begin <= |line| && span.end <= |line|
    ensures RowAt(tab, line, number, span).start.line == number == RowAt(tab, line, number, span).end.line
  {
  }

  lemma OriginNear(tab: Table, line: bytes)
    ensures Near(tab, line, 0)
  {
  }

  lemma EndOnChain(tab: Table, line: bytes, span: Span, limit: nat)
    requires SpanFits(tab, line, span, limit)
    ensures OnChain(tab, line, 0, span.end) && span.end <= |line|
  {
  }

  lemma OrderedAppend(a: seq<Row>, b: seq<Row>, line: nat)
    requires Ordered(a) && Ordered(b)
    requires forall k :: 0 <= k < |a| ==> a[k].start.line == line
    requires forall k :: 0 <= k < |b| ==> b[k].start.line > line
    ensures Ordered(a + b)
  {
    var c := a + b;
    forall j, k | 0 <= j < k < |c|
      ensures c[j].start.line <= c[k].start.line
      ensures c[j].start.line == c[k].start.line ==>
                c[j].end.col <= c[k].start.col && (c[j].end.col == c[k].start.col ==> j + 1 == k)
    {
      assert k >= |a| ==> c[k] == b[k - |a|];
      assert j >= |a| ==> c[j] == b[j - |a|];
    }
  }

  lemma {:induction false} RowsShaped(tab: Table, text: bytes, number: nat, limit: nat, breakWords: bool)
    requires AsciiTable(tab) && limit > 0
    ensures var rows := Rows(tab, text, number, limit, breakWords);
            && Shaped(rows, limit) && Ordered(rows)
            && (forall k :: 0 <= k < |rows| ==> number <= rows[k].start.line < |LineStarts(text)|)
            && (number < |LineStarts(text)| ==> rows != [])
    decreases |LineStarts(text)| - number
  {
    hide LineRows, LineText, LineStarts, AsciiTable, Ordered, Rows;
    NextLineRows(tab, text, number, limit, breakWords);
    OrderedNothing();
    if number < |LineStarts(text)| {
      var line := LineText(text, number);
      LineRowsShaped(tab, line, number, limit, breakWords);
      RowsShaped(tab, text, number + 1, limit, breakWords);
      OrderedAppend(LineRows(tab, line, number, limit, breakWords),
                    Rows(tab, text, number + 1, limit, breakWords), number);
    }
  }

  lemma OrderedNothing()
    ensures Ordered([])
  {
  }

  /** Row `k` of line `number` is row `i` of the map. */
  lemma {:induction false} RowsContain(tab: Table, text: bytes, from: nat, number: nat, limit: nat, breakWords: bool,
                                       k: nat)
    returns (i: nat)
    requires limit > 0 && from <= number < |LineStarts(text)|
    requires k < |LineRows(tab, LineText(text, number), number, limit, breakWords)|
    ensures var rows := Rows(tab, text, from, limit, breakWords);
            i < |rows| && rows[i] == LineRows(tab, LineText(text, number), number, limit, breakWords)[k]
    decreases number - from
  {
    hide LineRows, LineText, LineStarts, Rows;
    NextLineRows(tab, text, from, limit, breakWords);
    i := k;
    if from < number {
      var below := RowsContain(tab, text, from + 1, number, limit, breakWords, k);
      i := |LineRows(tab, LineText(text, from), from, limit, breakWords)| + below;
    }
  }

  // ----- the two maps

  lemma {:induction false} VisualIsFirst(rows: seq<Row>, position: Position, from: nat, k: nat)
    requires from <= k <= |rows|
    requires forall j :: from <= j < k ==> !Covers(rows[j], position)
    requires k < |rows| ==> Covers(rows[k], position)
    ensures VisualFrom(rows, position, from)
         == if k < |rows| then Visual(k, position.col - rows[k].start.col) else Visual(0, 0)
    decreases k - from
  {
    hide Covers;
    if from < k {
      VisualIsFirst(rows, position, from + 1, k);
    }
  }

  lemma {:induction false} FirstCover(rows: seq<Row>, position: Position, from: nat) returns (k: nat)
    requires from <= |rows|
    ensures from <= k <= |rows|
    ensures forall j :: from <= j < k ==> !Covers(rows[j], position)
    ensures k < |rows| ==> Covers(rows[k], position)
    decreases |rows| - from
  {
    hide Covers;
    k := from;
    if from < |rows| && !Covers(rows[from], position) {
      k := FirstCover(rows, position, from + 1);
    }
  }

  /** Going to the screen and back is the identity exactly at the positions some row covers. */
  lemma BufferTripIsIdentity(rows: seq<Row>, limit: nat, position: Position)
    requires rows != [] && Shaped(rows, limit)
    ensures ToBuffer(rows, ToVisual(rows, position)) == position
       <==> exists k :: 0 <= k < |rows| && Covers(rows[k], position)
  {
    hide VisualFrom;
    var k := FirstCover(rows, position, 0);
    VisualIsFirst(rows, position, 0, k);
    if k == |rows| {
      assert Covers(rows[0], rows[0].start);
    }
  }

  predicate InRange(rows: seq<Row>, v: VisualPosition) {
    v.row < |rows| && v.col <= RowLength(rows[v.row])
  }

  /** Row `r` starts where the row before it ends. */
  predicate Touched(rows: seq<Row>, r: nat) {
    0 < r < |rows| && rows[r - 1].end == rows[r].start
  }

  /** To the buffer and back is the identity, except at the first column of a row that the one before it touches. */
  lemma ScreenTripIsIdentity(rows: seq<Row>, limit: nat, v: VisualPosition)
    requires Shaped(rows, limit) && Ordered(rows)
    requires InRange(rows, v)
    ensures ToVisual(rows, ToBuffer(rows, v)) == v <==> !(v.col == 0 && Touched(rows, v.row))
  {
    hide VisualFrom;
    var position := ToBuffer(rows, v);
    assert Covers(rows[v.row], position);
    var k := FirstCover(rows, position, 0);
    VisualIsFirst(rows, position, 0, k);
    if Touched(rows, v.row) && v.col == 0 {
      assert Covers(rows[v.row - 1], position);
    }
  }

  /** A place beyond the last row is taken to be on it, one beyond the end of a row to be that end. */
  lemma BeyondTheRows(rows: seq<Row>, limit: nat, v: VisualPosition)
    requires Shaped(rows, limit)
    ensures rows == [] ==> ToBuffer(rows, v) == Pos(0, 0)
    ensures rows != [] && v.row >= |rows| ==> ToBuffer(rows, v) == ToBuffer(rows, Visual(|rows| - 1, v.col))
    ensures v.row < |rows| && v.col >= RowLength(rows[v.row]) ==> ToBuffer(rows, v) == rows[v.row].end
  {
  }

  /** The map of every text, at every width. */
  lemma WrapMapIsExact(tab: Table, text: bytes, width: nat, breakWords: bool)
    requires AsciiTable(tab)
    ensures var rows := Wrapped(tab, text, width, breakWords);
            && rows != [] && Ordered(rows) && Shaped(rows, if width == 0 then 1 else width)
            && (forall p: Position :: ToBuffer(rows, ToVisual(rows, p)) == p
                  <==> exists k :: 0 <= k < |rows| && Covers(rows[k], p))
            && (forall v: VisualPosition :: InRange(rows, v) ==>
                  (ToVisual(rows, ToBuffer(rows, v)) == v <==> !(v.col == 0 && Touched(rows, v.row))))
  {
    hide Rows, ToVisual, ToBuffer, LineStarts, Ordered, Covers;
    var limit := Limit(width);
    var rows := Wrapped(tab, text, width, breakWords);
    RowsShaped(tab, text, 0, limit, breakWords);
    forall p: Position
      ensures ToBuffer(rows, ToVisual(rows, p)) == p <==> exists k :: 0 <= k < |rows| && Covers(rows[k], p)
    {
      BufferTripIsIdentity(rows, limit, p);
    }
    forall v: VisualPosition | InRange(rows, v)
      ensures ToVisual(rows, ToBuffer(rows, v)) == v <==> !(v.col == 0 && Touched(rows, v.row))
    {
      ScreenTripIsIdentity(rows, limit, v);
    }
  }

  /** A cluster in no row starts with a space; if no space is extended, it is one space byte. */
  lemma OnlySpacesUncovered(tab: Table, text: bytes, width: nat, breakWords: bool, number: nat, b: nat)
    requires AsciiTable(tab) && number < |LineStarts(text)|
    requires b < |LineText(text, number)| && OnChain(tab, LineText(text, number), 0, b)
    ensures var line, rows := LineText(text, number), Wrapped(tab, text, width, breakWords);
            var column := CountTo(tab, line, 0, b);
            || (exists i :: 0 <= i < |rows| && rows[i].start.line == number
                            && rows[i].start.col <= column < rows[i].end.col)
            || (line[b] == SPACE && (SpacesAlone(tab, line) ==> NextBreak(tab, line, b) == b + 1))
  {
    hide Rows, LineStarts, LineText, NextBreak, OnChain, AsciiTable, RowsFrom, Spans, SpanFits, RowAt, CountTo, Near;
    hide SpacesAlone;
    var line, limit := LineText(text, number), Limit(width);
    if 0 < b && line[b] == SPACE {
      AloneAt(tab, line, b);
    } else {
      var k := 0;
      NextSpan(tab, line, 0, limit, breakWords);
      if 0 < b {
        k := SpanOf(tab, line, 0, limit, breakWords, b);
      }
      OriginNear(tab, line);
      SpanFacts(tab, line, 0, limit, breakWords, k);
      var span := Spans(tab, line, 0, limit, breakWords)[k];
      SpanCoversColumn(tab, line, number, span, limit, b);
      RowsAreSpans(tab, line, number, 0, limit, breakWords);
      RowLines(tab, line, number, span);
      var i := RowsContain(tab, text, 0, number, limit, breakWords, k);
      assert Wrapped(tab, text, width, breakWords)[i] == RowAt(tab, line, number, span);
    }
  }

  lemma AloneAt(tab: Table, line: bytes, b: nat)
    requires 0 < b < |line| && OnChain(tab, line, 0, b) && line[b] == SPACE
    ensures SpacesAlone(tab, line) ==> NextBreak(tab, line, b) == b + 1
  {
    hide NextBreak, OnChain;
  }

  lemma SpanCoversColumn(tab: Table, line: bytes, number: nat, span: Span, limit: nat, b: nat)
    requires AsciiTable(tab) && SpanFits(tab, line, span, limit)
    requires span.begin <= b < span.end && OnChain(tab, line, 0, b)
    ensures var row := RowAt(tab, line, number, span);
            row.start.col <= CountTo(tab, line, 0, b) < row.end.col
  {
    hide NextBreak, OnChain, AsciiTable, RowAt, CountTo;
    RowColumns(tab, line, number, span, limit);
    CountMonotone(tab, line, 0, span.begin, b);
    CountStrict(tab, line, 0, b, span.end);
  }
}
