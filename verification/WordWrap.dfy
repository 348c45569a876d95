/** Soft wrapping and the map between buffer and visual positions, of TTyUtils-WordWrap. */
module WordWrap {
  import opened Bytes
  import opened Grapheme
  import opened Clusters
  import opened LineIndexes
  import opened TextBuffer

  datatype Row = Row(start: Position, end: Position)

  datatype VisualPosition = Visual(row: nat, col: nat)

  // ----- one row

  predicate Blank(b: byte) {
    b == SPACE || b == TAB
  }

  function Limit(width: nat): nat {
    if width == 0 then 1 else width
  }

  /** Where the inner loop of `soft_wrap` stops, and the end of the last blank cluster it saw. */
  datatype Reach = Reach(end: nat, lastSpace: nat)

  function Fill(tab: Table, line: bytes, end: nat, columns: nat, limit: nat, lastSpace: nat): (r: Reach)
    requires end <= |line|
    ensures end <= r.end <= |line|
    ensures r.lastSpace == lastSpace || end < r.lastSpace <= r.end
    ensures end < |line| && columns < limit ==> end < r.end
    decreases |line| - end
  {
    if end < |line| && columns < limit then
      var next := NextBreak(tab, line, end);
      Fill(tab, line, next, columns + 1, limit, if Blank(line[end]) then next else lastSpace)
    else Reach(end, lastSpace)
  }

  /** The end of the row that starts at `start`. */
  function RowEnd(tab: Table, line: bytes, start: nat, limit: nat, breakWords: bool): (end: nat)
    requires start <= |line| && limit > 0
    ensures start <= end <= |line|
    ensures start < |line| ==> start < end
  {
    var r := Fill(tab, line, start, 0, limit, start);
    if r.end < |line| && breakWords && r.lastSpace > start then r.lastSpace else r.end
  }

  function SkipSpaces(line: bytes, at: nat): (next: nat)
    requires at <= |line|
    ensures at <= next <= |line|
    ensures forall i :: at <= i < next ==> line[i] == SPACE
    ensures next < |line| ==> line[next] != SPACE
    decreases |line| - at
  {
    if at < |line| && line[at] == SPACE then SkipSpaces(line, at + 1) else at
  }

  /** One row of a line, in bytes. */
  datatype Span = Span(begin: nat, end: nat)

  function Spans(tab: Table, line: bytes, start: nat, limit: nat, breakWords: bool): (spans: seq<Span>)
    requires start <= |line| && limit > 0
    ensures forall k :: 0 <= k < |spans| ==> start <= spans[k].begin < spans[k].end <= |line|
    decreases |line| - start
  {
    if start == |line| then []
    else
      var end := RowEnd(tab, line, start, limit, breakWords);
      [Span(start, end)] + Spans(tab, line, SkipSpaces(line, end), limit, breakWords)
  }

  // ----- the rows of a text

  /** The column of a byte offset in its line. */
  function Column(tab: Table, line: bytes, byte: nat): nat
    requires byte <= |line|
  {
    CountFrom(tab, line[..byte], 0)
  }

  function RowAt(tab: Table, line: bytes, number: nat, span: Span): Row
    requires span.begin <= |line| && span.end <= |line|
  {
    Row(Pos(number, Column(tab, line, span.begin)), Pos(number, Column(tab, line, span.end)))
  }

  function RowsFrom(tab: Table, line: bytes, number: nat, start: nat, limit: nat, breakWords: bool): seq<Row>
    requires start <= |line| && limit > 0
    decreases |line| - start
  {
    if start == |line| then []
    else
      var end := RowEnd(tab, line, start, limit, breakWords);
      [RowAt(tab, line, number, Span(start, end))]
      + RowsFrom(tab, line, number, SkipSpaces(line, end), limit, breakWords)
  }

  function LineRows(tab: Table, line: bytes, number: nat, limit: nat, breakWords: bool): seq<Row>
    requires limit > 0
  {
    if line == [] then [Row(Pos(number, 0), Pos(number, 0))]
    else RowsFrom(tab, line, number, 0, limit, breakWords)
  }

  /** The rows of lines `number` and later. */
  function Rows(tab: Table, text: bytes, number: nat, limit: nat, breakWords: bool): seq<Row>
    requires limit > 0
    decreases |LineStarts(text)| - number
  {
    if number >= |LineStarts(text)| then []
    else LineRows(tab, LineText(text, number), number, limit, breakWords)
         + Rows(tab, text, number + 1, limit, breakWords)
  }

  function Wrapped(tab: Table, text: bytes, width: nat, breakWords: bool): seq<Row> {
    Rows(tab, text, 0, Limit(width), breakWords)
  }

  // ----- the map

  predicate Covers(row: Row, position: Position) {
    && row.start.line == position.line && row.end.line == position.line
    && row.start.col <= position.col <= row.end.col
  }

  function VisualFrom(rows: seq<Row>, position: Position, from: nat): VisualPosition
    decreases |rows| - from
  {
    if from >= |rows| then Visual(0, 0)
    else if Covers(rows[from], position) then Visual(from, position.col - rows[from].start.col)
    else VisualFrom(rows, position, from + 1)
  }

  function ToVisual(rows: seq<Row>, position: Position): VisualPosition {
    VisualFrom(rows, position, 0)
  }

  function RowLength(row: Row): int {
    row.end.col - row.start.col
  }

  function ToBuffer(rows: seq<Row>, position: VisualPosition): Position
    requires forall k :: 0 <= k < |rows| ==> RowLength(rows[k]) >= 0
  {
    if rows == [] then Pos(0, 0)
    else
      var row := rows[Min(position.row, |rows| - 1)];
      Pos(row.start.line, row.start.col + Min(position.col, RowLength(row)))
  }

  class WrapMap {
    var rows: seq<Row>

    constructor ()
      ensures rows == []
    {
      rows := [];
    }

    function VisualToBuffer(position: VisualPosition): Position
      requires forall k :: 0 <= k < |rows| ==> RowLength(rows[k]) >= 0
      reads this
    {
      ToBuffer(rows, position)
    }

    method BufferToVisual(position: Position) returns (visual: VisualPosition)
      ensures visual == ToVisual(rows, position)
    {
      for row := 0 to |rows|
        invariant VisualFrom(rows, position, row) == ToVisual(rows, position)
      {
        var current := rows[row];
        if current.start.line == position.line && current.end.line == position.line &&
           current.start.col <= position.col <= current.end.col {
          return Visual(row, position.col - current.start.col);
        }
      }
      return Visual(0, 0);
    }
  }

  /** `soft_wrap`; of the break rules it reads `break_words` alone. */
  method SoftWrap(tab: Table, text: bytes, width: nat, breakWords: bool) returns (wrapMap: WrapMap)
    ensures fresh(wrapMap) && wrapMap.rows == Wrapped(tab, text, width, breakWords)
  {
    hide LineText, LineStarts, LineRows, OffsetIn;
    wrapMap := new WrapMap();
    var index := new LineIndex(tab, text);
    var limit := if width == 0 then 1 else width;
    var lines := index.Lines();
    var line := 0;
    ghost var all := Wrapped(tab, text, width, breakWords);
    assert all == Rows(tab, text, 0, limit, breakWords);
    hide Rows, Wrapped;
    while line < lines
      invariant line <= lines == |LineStarts(text)|
      invariant |wrapMap.rows| <= |all| && wrapMap.rows == all[..|wrapMap.rows|]
      invariant Rows(tab, text, line, limit, breakWords) == all[|wrapMap.rows|..]
      modifies wrapMap`rows
    {
      StartOfLine(tab, text, line);
      var start := index.Offset(Pos(line, 0), text);
      var next := |text|;
      if line + 1 < lines {
        StartOfLine(tab, text, line + 1);
        next := index.Offset(Pos(line + 1, 0), text);
      }
      LineSlice(text, line, next);
      var end := if next > start && text[next - 1] == LF then next - 1 else next;
      var rows := WrapLine(tab, text[start..end], line, limit, breakWords);
      NextLineRows(tab, text, line, limit, breakWords);
      AppendPrefix(all, wrapMap.rows, rows, Rows(tab, text, line + 1, limit, breakWords));
      wrapMap.rows := wrapMap.rows + rows;
      line := line + 1;
    }
    assert all[..|wrapMap.rows|] == all by { NextLineRows(tab, text, line, limit, breakWords); }
  }

  lemma StartOfLine(tab: Table, text: bytes, line: nat)
    requires line < |LineStarts(text)|
    ensures OffsetIn(tab, LineStarts(text), text, Pos(line, 0)) == LineStarts(text)[line]
  {
    hide NextBreak, LineStarts;
  }

  lemma NextLineRows(tab: Table, text: bytes, number: nat, limit: nat, breakWords: bool)
    requires limit > 0
    ensures Rows(tab, text, number, limit, breakWords)
         == if number >= |LineStarts(text)| then []
            else LineRows(tab, LineText(text, number), number, limit, breakWords)
                 + Rows(tab, text, number + 1, limit, breakWords)
  {
    hide LineRows, LineText, LineStarts;
  }

  lemma AppendPrefix<T>(all: seq<T>, front: seq<T>, mid: seq<T>, rest: seq<T>)
    requires |front| <= |all| && front == all[..|front|] && all[|front|..] == mid + rest
    ensures |front + mid| <= |all| && front + mid == all[..|front + mid|] && all[|front + mid|..] == rest
  {
    assert all == all[..|front|] + all[|front|..];
  }

  /** The part of the text that `soft_wrap` cuts out is the line. */
  lemma LineSlice(text: bytes, line: nat, next: nat)
    requires line < |LineStarts(text)|
    requires next == if line + 1 < |LineStarts(text)| then LineStarts(text)[line + 1] else |text|
    ensures var start := LineStarts(text)[line];
            && start <= next <= |text|
            && var end := if next > start && text[next - 1] == LF then next - 1 else next;
               start <= end && text[start..end] == LineText(text, line)
  {
    hide LineText, LineStarts;
    LineTextIsSlice(text, line);
    LineHasNoFeed(text, line);
    LineStartsFacts(text);
  }

  method WrapLine(tab: Table, text: bytes, line: nat, limit: nat, breakWords: bool) returns (rows: seq<Row>)
    requires limit > 0
    ensures rows == LineRows(tab, text, line, limit, breakWords)
  {
    if |text| == 0 {
      return [Row(Pos(line, 0), Pos(line, 0))];
    }
    hide RowsFrom, SkipSpaces, RowEnd, CountFrom, ClustersFrom;
    rows := [];
    var start := 0;
    ghost var all := RowsFrom(tab, text, line, 0, limit, breakWords);
    while start < |text|
      invariant start <= |text| && |rows| <= |all| && rows == all[..|rows|]
      invariant RowsFrom(tab, text, line, start, limit, breakWords) == all[|rows|..]
    {
      NextRow(tab, text, line, start, limit, breakWords);
      var end := FindRowEnd(tab, text, start, limit, breakWords);
      var startCol := Count(tab, text[..start]);
      var endCol := Count(tab, text[..end]);
      var row := Row(Pos(line, startCol), Pos(line, endCol));
      start := FindNonSpace(text, end);
      AppendPrefix(all, rows, [row], RowsFrom(tab, text, line, start, limit, breakWords));
      rows := rows + [row];
    }
    NextRow(tab, text, line, start, limit, breakWords);
    assert all[..|rows|] == all;
  }

  lemma NextRow(tab: Table, line: bytes, number: nat, start: nat, limit: nat, breakWords: bool)
    requires start <= |line| && limit > 0
    ensures var rows := RowsFrom(tab, line, number, start, limit, breakWords);
            if start == |line| then rows == []
            else
              var end := RowEnd(tab, line, start, limit, breakWords);
              && rows != [] && rows[0] == RowAt(tab, line, number, Span(start, end))
              && rows[1..] == RowsFrom(tab, line, number, SkipSpaces(line, end), limit, breakWords)
  {
    hide RowEnd, RowAt, SkipSpaces;
  }

  method FindNonSpace(text: bytes, at: nat) returns (next: nat)
    requires at <= |text|
    ensures next == SkipSpaces(text, at)
  {
    next := at;
    while next < |text| && text[next] == SPACE
      invariant at <= next <= |text| && SkipSpaces(text, next) == SkipSpaces(text, at)
    {
      next := next + 1;
    }
  }

  method FindRowEnd(tab: Table, text: bytes, start: nat, limit: nat, breakWords: bool) returns (end: nat)
    requires start < |text| && limit > 0
    ensures end == RowEnd(tab, text, start, limit, breakWords)
  {
    hide NextBreak;
    end := start;
    ghost var reach := Fill(tab, text, start, 0, limit, start);
    var columns, lastSpace := 0, start;
    while end < |text| && columns < limit
      invariant start <= end <= |text| && columns >= 0 && lastSpace >= 0
      invariant Fill(tab, text, end, columns, limit, lastSpace) == reach
      decreases |text| - end
    {
      var next := FindNextBreak(tab, text, end);
      if text[end] == SPACE || text[end] == TAB {
        lastSpace := next;
      }
      end := next;
      columns := columns + 1;
    }
    if end < |text| && breakWords && lastSpace > start {
      end := lastSpace;
    }
  }
}
