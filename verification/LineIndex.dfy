/** Line starts, and the two maps between byte offsets and (line, column) positions, of TTyUtils-TextBuffer. */
module LineIndexes {
  import opened Bytes
  import opened Grapheme
  import opened Clusters

  datatype Position = Pos(line: nat, col: nat)

  predicate Before(p: Position, q: Position) {
    p.line < q.line || (p.line == q.line && p.col < q.col)
  }

  // ----- specification functions

  function LineStartsUpTo(text: bytes, n: nat): (starts: seq<nat>)
    requires n <= |text|
    ensures starts != [] && starts[0] == 0
  {
    if n == 0 then [0]
    else LineStartsUpTo(text, n - 1) + (if text[n - 1] == LF then [n] else [])
  }

  /** Offset 0 and every offset just after a line feed. */
  function LineStarts(text: bytes): (starts: seq<nat>)
    ensures starts != [] && starts[0] == 0
  {
    LineStartsUpTo(text, |text|)
  }

  /** Up to `columns` clusters forward, as long as the offset is before `end`. */
  function Walk(tab: Table, text: bytes, byte: nat, end: nat, columns: nat): nat
    decreases columns
  {
    if byte < end && columns > 0 then Walk(tab, text, NextBreak(tab, text, byte), end, columns - 1) else byte
  }

  /** One past the line's last byte: its line feed, or the end of the text. */
  function LineEnd(starts: seq<nat>, text: bytes, line: nat): int
    requires line < |starts|
  {
    if line + 1 < |starts| then starts[line + 1] - 1 else |text|
  }

  function OffsetIn(tab: Table, starts: seq<nat>, text: bytes, position: Position): nat {
    if starts == [] then 0
    else
      var line := Min(position.line, |starts| - 1);
      var end := LineEnd(starts, text, line);
      if starts[line] < end then Walk(tab, text, starts[line], end, position.col) else starts[line]
  }

  /** How many entries of a sorted list are at most `b`. */
  function UpperBound(starts: seq<nat>, b: nat): (n: nat)
    ensures n <= |starts|
  {
    if starts == [] then 0
    else if starts[|starts| - 1] <= b then |starts|
    else UpperBound(starts[..|starts| - 1], b)
  }

  ghost predicate Increasing(starts: seq<nat>) {
    forall i, j :: 0 <= i < j < |starts| ==> starts[i] < starts[j]
  }

  function PositionIn(tab: Table, starts: seq<nat>, text: bytes, byte: nat): Position
    requires starts != [] && starts[0] == 0
  {
    var bounded := Min(byte, |text|);
    var line := UpperBound(starts, bounded) - 1;
    if line < 0 then Pos(0, 0) else Pos(line, CountTo(tab, text, starts[line], bounded))
  }

  /** Offset and position in the text's own line index. */
  function OffsetOf(tab: Table, text: bytes, position: Position): nat {
    OffsetIn(tab, LineStarts(text), text, position)
  }

  function PositionOf(tab: Table, text: bytes, byte: nat): Position {
    PositionIn(tab, LineStarts(text), text, byte)
  }

  /** Past the end of the text an offset counts as the end. */
  lemma PositionPastEnd(tab: Table, text: bytes, byte: nat)
    requires byte >= |text|
    ensures PositionOf(tab, text, byte) == PositionOf(tab, text, |text|)
  {
  }

  // ----- the class

  class LineIndex {
    const tab: Table
    var starts: seq<nat>

    ghost predicate Valid()
      reads this
    {
      starts != [] && starts[0] == 0 && Increasing(starts)
    }

    constructor (tab: Table, text: bytes)
      ensures Valid() && this.tab == tab && starts == LineStarts(text)
    {
      this.tab := tab;
      starts := [0];
      new;
      Rebuild(text);
    }

    method Rebuild(text: bytes)
      modifies this
      ensures Valid() && starts == LineStarts(text)
    {
      starts := [0];
      var index := 0;
      while index < |text|
        invariant index <= |text| && starts == LineStartsUpTo(text, index)
      {
        if text[index] == LF {
          starts := starts + [index + 1];
        }
        index := index + 1;
      }
      LineStartsIncreasing(text, |text|);
    }

    method Lines() returns (n: nat)
      ensures n == |starts|
    {
      n := |starts|;
    }

    method Offset(position: Position, text: bytes) returns (byte: nat)
      ensures byte == OffsetIn(tab, starts, text, position)
    {
      hide NextBreak;
      if |starts| == 0 {
        return 0;
      }
      var line := Min(position.line, |starts| - 1);
      var end := LineEnd(starts, text, line);
      byte := starts[line];
      var column := 0;
      while byte < end && column < position.col
        invariant column <= position.col
        invariant starts[line] < end ==>
            Walk(tab, text, byte, end, position.col - column) == Walk(tab, text, starts[line], end, position.col)
        invariant starts[line] >= end ==> byte == starts[line]
        decreases position.col - column
      {
        byte := FindNextBreak(tab, text, byte);
        column := column + 1;
      }
    }

    method Position(byte: nat, text: bytes) returns (position: Position)
      requires Valid()
      ensures position == PositionIn(tab, starts, text, byte)
    {
      var bounded := Min(byte, |text|);
      var found := FindUpperBound(starts, bounded);
      UpperBoundPositive(starts, bounded);
      var line := found - 1;
      var col, at := 0, starts[line];
      while at < bounded
        invariant at <= |text|
        invariant col + CountTo(tab, text, at, bounded) == CountTo(tab, text, starts[line], bounded)
        decreases |text| - at
      {
        at := FindNextBreak(tab, text, at);
        col := col + 1;
      }
      position := Pos(line, col);
    }
  }

  /** `std::upper_bound` on the line starts. */
  method FindUpperBound(starts: seq<nat>, b: nat) returns (n: nat)
    requires Increasing(starts)
    ensures n == UpperBound(starts, b)
  {
    var low, high := 0, |starts|;
    while low < high
      invariant low <= high <= |starts|
      invariant forall i :: 0 <= i < low ==> starts[i] <= b
      invariant forall i :: high <= i < |starts| ==> starts[i] > b
    {
      var mid := (low + high) / 2;
      if starts[mid] <= b {
        low := mid + 1;
      } else {
        high := mid;
      }
    }
    n := low;
    UpperBoundUnique(starts, b, n);
  }

  lemma {:induction false} UpperBoundUnique(starts: seq<nat>, b: nat, n: nat)
    requires n <= |starts|
    requires n > 0 ==> starts[n - 1] <= b
    requires forall i :: n <= i < |starts| ==> starts[i] > b
    ensures UpperBound(starts, b) == n
  {
    if n < |starts| {
      UpperBoundUnique(starts[..|starts| - 1], b, n);
    }
  }

  lemma {:induction false} UpperBoundPositive(starts: seq<nat>, b: nat)
    requires starts != [] && starts[0] == 0
    ensures UpperBound(starts, b) > 0
    ensures starts[UpperBound(starts, b) - 1] <= b
    ensures UpperBound(starts, b) < |starts| ==> starts[UpperBound(starts, b)] > b
  {
    if starts[|starts| - 1] > b {
      UpperBoundPositive(starts[..|starts| - 1], b);
    }
  }

  // ----- facts about line starts

  lemma {:induction false} LineStartsIncreasing(text: bytes, n: nat)
    requires n <= |text|
    ensures Increasing(LineStartsUpTo(text, n))
    ensures forall l :: 0 <= l < |LineStartsUpTo(text, n)| ==> LineStartsUpTo(text, n)[l] <= n
  {
    if n > 0 {
      LineStartsIncreasing(text, n - 1);
    }
  }

  lemma {:induction false} LineStartsExact(text: bytes, n: nat, s: nat)
    requires n <= |text|
    ensures s in LineStartsUpTo(text, n) <==> s == 0 || (s <= n && text[s - 1] == LF)
  {
    if n > 0 {
      LineStartsExact(text, n - 1, s);
    }
  }

  /** The line starts, as the rest of the proofs use them. */
  lemma LineStartsFacts(text: bytes)
    ensures var starts := LineStarts(text);
            && Increasing(starts)
            && (forall l :: 0 <= l < |starts| ==> starts[l] <= |text|)
            && (forall l :: 0 < l < |starts| ==> 0 < starts[l] && text[starts[l] - 1] == LF)
  {
    LineStartsIncreasing(text, |text|);
    var starts := LineStarts(text);
    forall l | 0 < l < |starts|
      ensures 0 < starts[l] && text[starts[l] - 1] == LF
    {
      LineStartsExact(text, |text|, starts[l]);
    }
  }

  /** A line holds no line feed before its end, and its end is one unless it is the last line's. */
  lemma LineHasNoFeed(text: bytes, line: nat)
    requires line < |LineStarts(text)|
    ensures var starts := LineStarts(text);
            var end := LineEnd(starts, text, line);
            && starts[line] <= end <= |text|
            && (forall i :: starts[line] <= i < end ==> text[i] != LF)
            && (line + 1 < |starts| ==> end < |text| && text[end] == LF)
            && (line + 1 == |starts| ==> end == |text|)
  {
    LineStartsFacts(text);
    var starts := LineStarts(text);
    var end := LineEnd(starts, text, line);
    forall i | starts[line] <= i < end
      ensures text[i] != LF
    {
      LineStartsExact(text, |text|, i + 1);
    }
  }

  // ----- the theorems

  /** Every line start is a cluster boundary. */
  lemma LineStartsOnChain(tab: Table, text: bytes, line: nat)
    requires AsciiTable(tab) && line < |LineStarts(text)|
    ensures OnChain(tab, text, 0, LineStarts(text)[line])
  {
    hide LineStarts, NextBreak;
    LineStartsFacts(text);
    if line > 0 {
      ChainThroughLineStart(tab, text, 0, LineStarts(text)[line] - 1);
    }
  }

  lemma {:induction false} WalkReaches(tab: Table, text: bytes, start: nat, end: nat, b: nat)
    requires OnChain(tab, text, start, b) && b <= end <= |text|
    ensures Walk(tab, text, start, end, CountTo(tab, text, start, b)) == b
    decreases |text| - start
  {
    hide NextBreak;
    ChainBounds(tab, text, start, b);
    if start < b {
      WalkReaches(tab, text, NextBreak(tab, text, start), end, b);
    }
  }

  /** How many clusters lie wholly in `start..end`. */
  function Columns(tab: Table, text: bytes, start: nat, end: nat): nat
    requires end <= |text|
    decreases |text| - start
  {
    if start < end && NextBreak(tab, text, start) <= end
    then 1 + Columns(tab, text, NextBreak(tab, text, start), end) else 0
  }

  lemma {:induction false} WalkColumns(tab: Table, text: bytes, start: nat, end: nat, columns: nat)
    requires start <= end <= |text|
    ensures var b := Walk(tab, text, start, end, columns);
            && OnChain(tab, text, start, b)
            && b <= |text|
            && (columns <= Columns(tab, text, start, end) ==> b <= end && CountTo(tab, text, start, b) == columns)
            && (columns > Columns(tab, text, start, end) ==>
                  (b == end && CountTo(tab, text, start, b) < columns)
                  || b > end)
    decreases columns
  {
    hide NextBreak;
    if start < end && columns > 0 {
      var e := NextBreak(tab, text, start);
      ChainBounds(tab, text, e, e);
      if e <= end {
        WalkColumns(tab, text, e, end, columns - 1);
        var b := Walk(tab, text, e, end, columns - 1);
        ChainBounds(tab, text, e, b);
      }
    }
  }

  /** Every offset `offset` returns is a cluster boundary of the text. */
  lemma OffsetOnChain(tab: Table, text: bytes, position: Position)
    requires AsciiTable(tab)
    ensures OnChain(tab, text, 0, OffsetOf(tab, text, position))
    ensures OffsetOf(tab, text, position) <= |text|
  {
    hide LineStarts, NextBreak, OnChain;
    LineStartsFacts(text);
    var starts := LineStarts(text);
    var line := Min(position.line, |starts| - 1);
    var end := LineEnd(starts, text, line);
    LineStartsOnChain(tab, text, line);
    if starts[line] < end {
      WalkColumns(tab, text, starts[line], end, position.col);
      ChainCompose(tab, text, 0, starts[line], OffsetOf(tab, text, position));
    }
  }

  /** `offset` undoes `position` at every cluster boundary. */
  lemma OffsetUndoesPosition(tab: Table, text: bytes, b: nat)
    requires AsciiTable(tab) && b <= |text| && OnChain(tab, text, 0, b)
    ensures OffsetOf(tab, text, PositionOf(tab, text, b)) == b
  {
    hide LineStarts, NextBreak, OnChain, UpperBound;
    LineStartsFacts(text);
    var starts := LineStarts(text);
    UpperBoundPositive(starts, b);
    var line := UpperBound(starts, b) - 1;
    LineStartsOnChain(tab, text, line);
    ChainSplit(tab, text, 0, starts[line], b);
    WalkReaches(tab, text, starts[line], LineEnd(starts, text, line), b);
  }

  /** A position that names a line and a column on it, up to the column of a final CR. */
  predicate ValidPosition(tab: Table, text: bytes, position: Position) {
    var starts := LineStarts(text);
    && position.line < |starts|
    && 0 <= LineEnd(starts, text, position.line) <= |text|
    && position.col <= Columns(tab, text, starts[position.line], LineEnd(starts, text, position.line))
  }

  /** `position` undoes `offset` exactly at the valid positions; after a CR LF it does not. */
  lemma PositionUndoesOffset(tab: Table, text: bytes, position: Position)
    requires AsciiTable(tab)
    ensures PositionOf(tab, text, OffsetOf(tab, text, position)) == position
       <==> ValidPosition(tab, text, position)
  {
    hide LineStarts, NextBreak, OnChain, UpperBound;
    LineStartsFacts(text);
    OffsetOnChain(tab, text, position);
    var starts := LineStarts(text);
    var b := OffsetOf(tab, text, position);
    UpperBoundPositive(starts, b);
    if position.line < |starts| {
      var line := position.line;
      var end := LineEnd(starts, text, line);
      WalkColumns(tab, text, starts[line], end, position.col);
      WalkStarts(tab, text, starts[line], end, position.col);
      if b <= end {
        UpperBoundUnique(starts, b, line + 1);
      }
    }
  }

  lemma WalkStarts(tab: Table, text: bytes, start: nat, end: nat, columns: nat)
    requires start <= end <= |text|
    ensures start == end ==> Walk(tab, text, start, end, columns) == start
    ensures start == end ==> Columns(tab, text, start, end) == 0
    ensures Walk(tab, text, start, end, columns) >= start
  {
    hide NextBreak;
    WalkColumns(tab, text, start, end, columns);
    ChainBounds(tab, text, start, Walk(tab, text, start, end, columns));
  }

  /** Both maps preserve order. */
  lemma PositionPreservesOrder(tab: Table, text: bytes, a: nat, b: nat)
    requires AsciiTable(tab) && OnChain(tab, text, 0, a) && OnChain(tab, text, 0, b)
    requires a <= |text| && b <= |text|
    ensures a < b <==> Before(PositionOf(tab, text, a), PositionOf(tab, text, b))
  {
    hide LineStarts, NextBreak, OnChain, UpperBound;
    if a < b {
      PositionIncreases(tab, text, a, b);
    } else if b < a {
      PositionIncreases(tab, text, b, a);
    }
  }

  lemma PositionIncreases(tab: Table, text: bytes, a: nat, b: nat)
    requires AsciiTable(tab) && OnChain(tab, text, 0, a) && OnChain(tab, text, 0, b)
    requires a < b <= |text|
    ensures Before(PositionOf(tab, text, a), PositionOf(tab, text, b))
  {
    hide LineStarts, NextBreak, OnChain, UpperBound;
    LineStartsFacts(text);
    var starts := LineStarts(text);
    UpperBoundPositive(starts, a);
    UpperBoundPositive(starts, b);
    var la, lb := UpperBound(starts, a) - 1, UpperBound(starts, b) - 1;
    if la == lb {
      LineStartsOnChain(tab, text, la);
      ChainSplit(tab, text, 0, starts[la], a);
      CountSplit(tab, text, starts[la], a, b);
      assert CountTo(tab, text, a, b) > 0;
    }
  }

  /** Valid positions and cluster boundaries are in order-preserving one-to-one correspondence. */
  lemma OffsetPreservesOrder(tab: Table, text: bytes, p: Position, q: Position)
    requires AsciiTable(tab) && ValidPosition(tab, text, p) && ValidPosition(tab, text, q)
    ensures Before(p, q) <==> OffsetOf(tab, text, p) < OffsetOf(tab, text, q)
  {
    hide ValidPosition, OffsetOf, PositionOf;
    OffsetOnChain(tab, text, p);
    OffsetOnChain(tab, text, q);
    PositionUndoesOffset(tab, text, p);
    PositionUndoesOffset(tab, text, q);
    PositionPreservesOrder(tab, text, OffsetOf(tab, text, p), OffsetOf(tab, text, q));
  }

  lemma {:induction false} WalkSplit(tab: Table, text: bytes, start: nat, m: nat, end: nat, columns: nat)
    requires OnChain(tab, text, start, m) && m <= end <= |text|
    ensures Walk(tab, text, start, end, CountTo(tab, text, start, m) + columns) == Walk(tab, text, m, end, columns)
    ensures Columns(tab, text, start, end) == CountTo(tab, text, start, m) + Columns(tab, text, m, end)
    decreases |text| - start
  {
    hide NextBreak;
    ChainBounds(tab, text, start, m);
    if start < m {
      ChainBounds(tab, text, NextBreak(tab, text, start), m);
      WalkSplit(tab, text, NextBreak(tab, text, start), m, end, columns);
    }
  }

  /** One column past the CR of a CR LF, `offset` lands on the next line. */
  lemma ColumnAfterCarriageReturn(tab: Table, text: bytes, line: nat, cr: nat)
    requires AsciiTable(tab) && line + 1 < |LineStarts(text)| && LineStarts(text)[line + 1] == cr + 2
    requires cr + 1 < |text| && text[cr] == CR && LineStarts(text)[line] <= cr
    ensures var start := LineStarts(text)[line];
            var past := Pos(line, Columns(tab, text, start, cr + 1) + 1);
            && OffsetOf(tab, text, past) == cr + 2
            && PositionOf(tab, text, cr + 2) == Pos(line + 1, 0)
  {
    hide LineStarts, NextBreak, UpperBound;
    LineStartsFacts(text);
    var starts := LineStarts(text);
    ChainThroughCarriageReturn(tab, text, starts[line], cr);
    CrLfBreak(tab, text, cr);
    WalkSplit(tab, text, starts[line], cr, cr + 1, 1);
    assert Walk(tab, text, cr, cr + 1, 1) == Walk(tab, text, cr + 2, cr + 1, 0);
    UpperBoundUnique(starts, cr + 2, line + 2);
  }
}
