/** The set of cursors of TTyUtils-TextCursor, and its insertion at every cursor. */
module TextCursor {
  import opened Bytes
  import opened Grapheme
  import opened Clusters
  import opened LineIndexes
  import opened TextBuffer
  import opened CursorMotion
  import opened MultiEdit

  function CursorAt(p: Position): Cursor {
    Cursor(p, Pos(0, 0), p.col)
  }

  // ----- sorting and merging

  ghost predicate Ascending(cs: seq<Cursor>) {
    forall i, j :: 0 <= i < j < |cs| ==> !Before(cs[j].position, cs[i].position)
  }

  ghost predicate Descending(cs: seq<Cursor>) {
    forall i, j :: 0 <= i < j < |cs| ==> !Before(cs[i].position, cs[j].position)
  }

  ghost predicate StrictlyAscending(cs: seq<Cursor>) {
    forall i, j :: 0 <= i < j < |cs| ==> Before(cs[i].position, cs[j].position)
  }

  ghost predicate StrictlyDescending(cs: seq<Cursor>) {
    forall i, j :: 0 <= i < j < |cs| ==> Before(cs[j].position, cs[i].position)
  }

  /** `std::sort` by position, upwards. */
  method SortAscending(cs: seq<Cursor>) returns (sorted: seq<Cursor>)
    ensures Ascending(sorted) && multiset(sorted) == multiset(cs)
  {
    hide Ascending;
    sorted := [];
    SortedNothing();
    for i := 0 to |cs|
      invariant Ascending(sorted) && multiset(sorted) == multiset(cs[..i])
    {
      assert cs[..i + 1] == cs[..i] + [cs[i]];
      sorted := InsertSorted(sorted, cs[i]);
    }
    assert cs[..|cs|] == cs;
  }

  lemma SortedNothing()
    ensures Ascending([])
  {
  }

  method InsertSorted(cs: seq<Cursor>, c: Cursor) returns (sorted: seq<Cursor>)
    requires Ascending(cs)
    ensures Ascending(sorted) && multiset(sorted) == multiset(cs) + multiset{c}
  {
    hide Ascending, Before;
    var k := 0;
    while k < |cs| && !Before(c.position, cs[k].position)
      invariant 0 <= k <= |cs|
      invariant forall j :: 0 <= j < k ==> !Before(c.position, cs[j].position)
    {
      k := k + 1;
    }
    SortedInsert(cs, c, k);
    assert cs == cs[..k] + cs[k..];
    sorted := cs[..k] + [c] + cs[k..];
  }

  lemma SortedInsert(cs: seq<Cursor>, c: Cursor, k: nat)
    requires Ascending(cs) && k <= |cs|
    requires forall j :: 0 <= j < k ==> !Before(c.position, cs[j].position)
    requires k < |cs| ==> Before(c.position, cs[k].position)
    ensures Ascending(cs[..k] + [c] + cs[k..])
  {
    var sorted := cs[..k] + [c] + cs[k..];
    forall i, j | 0 <= i < j < |sorted|
      ensures !Before(sorted[j].position, sorted[i].position)
    {
      var a, b := if i <= k then i else i - 1, if j <= k then j else j - 1;
      assert i != k ==> sorted[i] == cs[a];
      assert j != k ==> sorted[j] == cs[b];
      if i == k {
        assert b > k ==> !Before(cs[b].position, cs[k].position);
      }
    }
  }

  function Reversed(cs: seq<Cursor>): (r: seq<Cursor>)
    ensures |r| == |cs| && forall i :: 0 <= i < |cs| ==> r[i] == cs[|cs| - 1 - i]
  {
    if cs == [] then [] else Reversed(cs[1..]) + [cs[0]]
  }

  lemma {:induction false} ReversedMultiset(cs: seq<Cursor>)
    ensures multiset(Reversed(cs)) == multiset(cs)
  {
    if cs != [] {
      ReversedMultiset(cs[1..]);
      assert cs == [cs[0]] + cs[1..];
    }
  }

  /** `std::sort` by position, downwards. */
  method SortDescending(cs: seq<Cursor>) returns (sorted: seq<Cursor>)
    ensures Descending(sorted) && multiset(sorted) == multiset(cs)
  {
    var up := SortAscending(cs);
    ReversedMultiset(up);
    sorted := Reversed(up);
  }

  function Positions(cs: seq<Cursor>): set<Position> {
    set c <- cs :: c.position
  }

  lemma PositionsAppend(cs: seq<Cursor>, c: Cursor)
    ensures Positions(cs + [c]) == Positions(cs) + {c.position}
  {
    assert c in cs + [c];
    forall d <- cs ensures d in cs + [c] {}
  }

  /** `merge`: sorts, then drops cursors that share a position. */
  method Merge(cs: seq<Cursor>) returns (merged: seq<Cursor>)
    ensures StrictlyAscending(merged) && Positions(merged) == Positions(cs)
    ensures forall c <- merged :: c in cs
  {
    var sorted := SortAscending(cs);
    SamePositions(sorted, cs);
    SameCursors(sorted, cs);
    merged := [];
    for i := 0 to |sorted|
      invariant StrictlyAscending(merged) && Positions(merged) == Positions(sorted[..i])
      invariant i == 0 <==> merged == []
      invariant i > 0 ==> merged[|merged| - 1].position == sorted[i - 1].position
      invariant forall c <- merged :: c in sorted
    {
      assert sorted[..i + 1] == sorted[..i] + [sorted[i]];
      PositionsAppend(sorted[..i], sorted[i]);
      PositionsAppend(merged, sorted[i]);
      if merged == [] || merged[|merged| - 1].position != sorted[i].position {
        merged := merged + [sorted[i]];
      }
    }
    assert sorted[..|sorted|] == sorted;
  }

  lemma SamePositions(a: seq<Cursor>, b: seq<Cursor>)
    requires multiset(a) == multiset(b)
    ensures Positions(a) == Positions(b)
  {
    forall c ensures c in a <==> c in b {
      assert c in multiset(a) <==> c in multiset(b);
    }
  }

  /** Sorting different positions downwards leaves them strictly ordered. */
  lemma SortedIsStrict(down: seq<Cursor>, up: seq<Cursor>)
    requires Descending(down) && StrictlyAscending(up) && multiset(down) == multiset(up)
    ensures StrictlyDescending(down)
  {
    forall i, j | 0 <= i < j < |down|
      ensures down[i].position != down[j].position
    {
      if down[i] == down[j] {
        TwiceHeld(down, i, j);
        OnceEach(up, down[i]);
      } else {
        assert down[i] in multiset(up) && down[j] in multiset(up);
      }
    }
  }

  lemma TwiceHeld(cs: seq<Cursor>, i: nat, j: nat)
    requires i < j < |cs| && cs[i] == cs[j]
    ensures multiset(cs)[cs[i]] >= 2
  {
    var front, middle, back := cs[..i], cs[i + 1..j], cs[j + 1..];
    assert cs == front + [cs[i]] + middle + [cs[j]] + back;
  }

  lemma {:induction false} OnceEach(up: seq<Cursor>, c: Cursor)
    requires StrictlyAscending(up)
    ensures multiset(up)[c] <= 1
  {
    if up != [] {
      OnceEach(up[1..], c);
      assert up == [up[0]] + up[1..];
      if up[0] == c {
        assert c !in up[1..];
      }
    }
  }

  // ----- inserting at every cursor

  /** The loop of `insert_each`: one insertion after another, in the given order. */
  function InsertInOrder(tab: Table, text: bytes, cs: seq<Cursor>, value: bytes): bytes
    decreases |cs|
  {
    if cs == [] then text
    else InsertInOrder(tab, Inserted(tab, text, cs[0].position, value), cs[1..], value)
  }

  /** text[..n] with `value` put in at every one of the offsets, all at once. */
  function InsertAtAll(text: bytes, value: bytes, offsets: set<nat>, n: nat): bytes
    requires n <= |text|
  {
    (if n == 0 then [] else InsertAtAll(text, value, offsets, n - 1) + [text[n - 1]])
    + (if n in offsets then value else [])
  }

  lemma {:induction false} NoMoreInsertions(text: bytes, value: bytes, offsets: set<nat>, o: nat, n: nat)
    requires o <= n <= |text| && forall k :: o < k <= n ==> k !in offsets
    ensures InsertAtAll(text, value, offsets, n) == InsertAtAll(text, value, offsets, o) + text[o..n]
    decreases n
  {
    if o < n {
      NoMoreInsertions(text, value, offsets, o, n - 1);
      assert text[o..n] == text[o..n - 1] + [text[n - 1]];
    }
  }

  lemma {:induction false} LaterOffsetsIrrelevant(text: bytes, value: bytes, a: set<nat>, b: set<nat>, n: nat)
    requires n <= |text| && forall k :: 0 <= k <= n ==> (k in a <==> k in b)
    ensures InsertAtAll(text, value, a, n) == InsertAtAll(text, value, b, n)
  {
    if n > 0 {
      LaterOffsetsIrrelevant(text, value, a, b, n - 1);
    }
  }

  function OffsetsOf(tab: Table, text: bytes, cs: seq<Cursor>): set<nat> {
    set c <- cs :: OffsetOf(tab, text, c.position)
  }

  /** No cursor is past the last line; it may be past the end of its line. */
  ghost predicate OnLines(text: bytes, cs: seq<Cursor>) {
    forall i :: 0 <= i < |cs| ==> cs[i].position.line < |LineStarts(text)|
  }

  // ----- offsets in plain text

  lemma {:induction false} PlainWalk(tab: Table, alphabet: set<byte>, text: bytes, byte: nat, end: nat, columns: nat)
    requires Plain(tab, alphabet) && Over(alphabet, text) && byte <= end <= |text|
    ensures Walk(tab, text, byte, end, columns) == Min(byte + columns, end)
    decreases columns
  {
    hide NextBreak;
    if byte < end && columns > 0 {
      PlainBreak(tab, alphabet, text, byte);
      PlainWalk(tab, alphabet, text, byte + 1, end, columns - 1);
    }
  }

  /** On a line of plain text an offset is the column, up to the end of the line. */
  lemma PlainOffset(tab: Table, alphabet: set<byte>, text: bytes, p: Position)
    requires Plain(tab, alphabet) && Over(alphabet, text) && p.line < |LineStarts(text)|
    ensures var start, end := LineStarts(text)[p.line], LineEnd(LineStarts(text), text, p.line);
            start <= end <= |text| && OffsetOf(tab, text, p) == Min(start + p.col, end)
  {
    hide NextBreak, LineStarts;
    LineHasNoFeed(text, p.line);
    PlainWalk(tab, alphabet, text, LineStarts(text)[p.line], LineEnd(LineStarts(text), text, p.line), p.col);
  }

  /** The line starts up to an offset are those of any text that agrees up to there. */
  lemma SameLineStart(text: bytes, other: bytes, line: nat, m: nat)
    requires m <= |text| && m <= |other| && text[..m] == other[..m]
    requires line < |LineStarts(text)| && LineStarts(text)[line] <= m
    ensures line < |LineStarts(other)| && LineStarts(other)[line] == LineStarts(text)[line]
  {
    hide UpperBound, LineStartsUpTo;
    LineStartsPrefix(text, other, m);
    LineOf(text, m, |text|);
    LineOf(other, m, |other|);
    UpperBoundPositive(LineStarts(text), m);
    LineStartsIncreasing(text, |text|);
    var common := LineStartsUpTo(text, m);
    assert line < |common| && common[line] == LineStarts(text)[line];
    assert LineStarts(other)[line] == common[line];
  }

  /** A cursor on a line keeps its offset in a text that agrees strictly beyond it. */
  lemma OffsetStays(tab: Table, alphabet: set<byte>, text: bytes, other: bytes, p: Position, m: nat)
    requires Plain(tab, alphabet) && Over(alphabet, text) && Over(alphabet, other) && p.line < |LineStarts(text)|
    requires m <= |text| && m <= |other| && text[..m] == other[..m] && OffsetOf(tab, text, p) < m
    ensures OffsetOf(tab, other, p) == OffsetOf(tab, text, p)
  {
    hide LineStarts, OffsetOf, Plain, Over, AsciiTable;
    PlainOffset(tab, alphabet, text, p);
    var start, end := LineStarts(text)[p.line], LineEnd(LineStarts(text), text, p.line);
    SameLineStart(text, other, p.line, m);
    PlainOffset(tab, alphabet, other, p);
    LineHasNoFeed(text, p.line);
    LineHasNoFeed(other, p.line);
    var stop := LineEnd(LineStarts(other), other, p.line);
    assert forall i :: 0 <= i < m ==> text[i] == text[..m][i] == other[i];
    assert stop < m ==> other[stop] == text[stop];
    assert end < m ==> other[end] == text[end];
  }

  /** On the lines of a plain text, offsets are in the order of the positions. */
  lemma OffsetsInOrder(tab: Table, alphabet: set<byte>, text: bytes, p: Position, q: Position)
    requires Plain(tab, alphabet) && Over(alphabet, text) && p.line < |LineStarts(text)| && q.line < |LineStarts(text)|
    requires Before(p, q)
    ensures OffsetOf(tab, text, p) <= OffsetOf(tab, text, q) <= |text|
  {
    hide LineStarts, OffsetOf, Plain, Over, AsciiTable;
    PlainOffset(tab, alphabet, text, p);
    PlainOffset(tab, alphabet, text, q);
    LineStartsFacts(text);
  }

  // ----- when all offsets are different

  lemma {:induction false} FewerOffsets(tab: Table, text: bytes, cs: seq<Cursor>)
    ensures |OffsetsOf(tab, text, cs)| <= |cs|
  {
    hide OffsetOf, OffsetsOf;
    if cs == [] {
      NoOffsets(tab, text);
    } else {
      FewerOffsets(tab, text, cs[1..]);
      OffsetsCons(tab, text, cs);
    }
  }

  lemma OffsetsCons(tab: Table, text: bytes, cs: seq<Cursor>)
    requires cs != []
    ensures OffsetsOf(tab, text, cs) == {OffsetOf(tab, text, cs[0].position)} + OffsetsOf(tab, text, cs[1..])
  {
    hide OffsetOf;
    assert cs == [cs[0]] + cs[1..];
  }

  /** With as many offsets as cursors, the first one's is greater than the others'. */
  lemma FirstIsGreatest(tab: Table, alphabet: set<byte>, text: bytes, cs: seq<Cursor>)
    requires Plain(tab, alphabet) && Over(alphabet, text)
    requires StrictlyDescending(cs) && cs != [] && OnLines(text, cs[1..])
    requires cs[0].position.line < |LineStarts(text)| || Foremost(tab, text, cs, cs[0])
    requires |OffsetsOf(tab, text, cs)| == |cs|
    ensures forall o <- OffsetsOf(tab, text, cs[1..]) :: o < OffsetOf(tab, text, cs[0].position)
    ensures |OffsetsOf(tab, text, cs[1..])| == |cs[1..]|
    ensures StrictlyDescending(cs[1..])
  {
    hide Foremost, OffsetOf, OffsetsOf, Plain, Over, LineStarts, AsciiTable, StrictlyDescending, OnLines;
    var o, rest := OffsetOf(tab, text, cs[0].position), OffsetsOf(tab, text, cs[1..]);
    OffsetsCons(tab, text, cs);
    FewerOffsets(tab, text, cs[1..]);
    NoneGreater(tab, alphabet, text, cs);
    assert o in rest ==> {o} + rest == rest;
    assert o !in rest ==> |{o} + rest| == 1 + |rest|;
  }

  lemma NoneGreater(tab: Table, alphabet: set<byte>, text: bytes, cs: seq<Cursor>)
    requires Plain(tab, alphabet) && Over(alphabet, text)
    requires StrictlyDescending(cs) && cs != [] && OnLines(text, cs[1..])
    requires cs[0].position.line < |LineStarts(text)| || Foremost(tab, text, cs, cs[0])
    ensures forall o <- OffsetsOf(tab, text, cs[1..]) :: o <= OffsetOf(tab, text, cs[0].position)
    ensures StrictlyDescending(cs[1..])
  {
    hide OffsetOf, Plain, Over, LineStarts, AsciiTable;
    forall c | c in cs[1..]
      ensures OffsetOf(tab, text, c.position) <= OffsetOf(tab, text, cs[0].position)
    {
      var i :| 0 <= i < |cs[1..]| && cs[1..][i] == c;
      assert c == cs[i + 1];
      if cs[0].position.line < |LineStarts(text)| {
        OffsetsInOrder(tab, alphabet, text, c.position, cs[0].position);
      }
    }
  }

  /** The largest offset goes first, and the others are not disturbed by it. */
  lemma InsertionSplits(text: bytes, value: bytes, rest: set<nat>, o: nat, m: nat)
    requires o <= m <= |text| && forall k <- rest :: k < o
    ensures InsertAtAll(text, value, {o} + rest, m)
         == InsertAtAll(text, value, rest, o) + value + text[o..m]
  {
    NoMoreInsertions(text, value, {o} + rest, o, m);
    if o > 0 {
      LaterOffsetsIrrelevant(text, value, {o} + rest, rest, o - 1);
    }
  }

  lemma {:induction false} InOrderIsSimultaneous(tab: Table, alphabet: set<byte>, text: bytes, current: bytes,
                                                 cs: seq<Cursor>, value: bytes, m: nat)
    requires Plain(tab, alphabet) && Over(alphabet, text) && Over(alphabet, current) && Over(alphabet, value)
    requires m <= |text| && m <= |current| && text[..m] == current[..m]
    requires StrictlyDescending(cs) && OnLines(text, cs) && |OffsetsOf(tab, text, cs)| == |cs|
    requires (forall o <- OffsetsOf(tab, text, cs) :: o < m) || (current == text && m == |text|)
    ensures InsertInOrder(tab, current, cs, value)
         == InsertAtAll(text, value, OffsetsOf(tab, text, cs), m) + current[m..]
    decreases |cs|
  {
    hide AsciiTable, Plain, Over, OffsetOf, Inserted, InsertAtAll, OffsetsOf, OnLines, StrictlyDescending, LineStarts;
    if cs == [] {
      NoOffsets(tab, text);
      NothingInserted(text, value, m);
      assert current == current[..m] + current[m..];
    } else {
      var p, rest := cs[0].position, cs[1..];
      var o := OffsetOf(tab, text, p);
      FirstOnLine(text, cs);
      FirstIsGreatest(tab, alphabet, text, cs);
      OffsetsCons(tab, text, cs);
      OffsetBounded(tab, text, p);
      if current != text || m != |text| {
        OffsetStays(tab, alphabet, text, current, p, m);
      }
      InsertedAt(tab, current, p, value);
      PlainParts(alphabet, current, value, o, o);
      SpliceParts(text, current, value, o, m);
      var next := current[..o] + value + current[o..];
      InOrderIsSimultaneous(tab, alphabet, text, next, rest, value, o);
      InsertionSplits(text, value, OffsetsOf(tab, text, rest), o, m);
      Regroup(InsertAtAll(text, value, OffsetsOf(tab, text, rest), o), value, text[o..m], current[m..]);
    }
  }

  lemma FirstOnLine(text: bytes, cs: seq<Cursor>)
    requires OnLines(text, cs) && cs != []
    ensures cs[0].position.line < |LineStarts(text)| && OnLines(text, cs[1..])
  {
  }

  lemma InsertedAt(tab: Table, text: bytes, p: Position, value: bytes)
    ensures var o := OffsetOf(tab, text, p);
            o <= |text| && Inserted(tab, text, p, value) == text[..o] + value + text[o..]
  {
    hide OffsetOf;
    OffsetBounded(tab, text, p);
  }

  lemma SpliceParts(text: bytes, current: bytes, value: bytes, o: nat, m: nat)
    requires o <= m <= |text| && m <= |current| && text[..m] == current[..m]
    ensures var next := current[..o] + value + current[o..];
            && o <= |next| && next[..o] == text[..o]
            && next[o..] == value + (text[o..m] + current[m..])
  {
    assert current == text[..m] + current[m..];
    assert text[..o] == text[..m][..o];
    assert current[o..] == text[o..m] + current[m..];
  }

  lemma Regroup(a: bytes, b: bytes, c: bytes, d: bytes)
    ensures a + (b + (c + d)) == a + b + c + d
  {
  }

  lemma NothingInserted(text: bytes, value: bytes, m: nat)
    requires m <= |text|
    ensures InsertAtAll(text, value, {}, m) == text[..m]
  {
    NoMoreInsertions(text, value, {}, 0, m);
  }

  lemma NoOffsets(tab: Table, text: bytes)
    ensures OffsetsOf(tab, text, []) == {}
  {
  }

  // ----- lengths

  lemma {:induction false} InOrderLength(tab: Table, text: bytes, cs: seq<Cursor>, value: bytes)
    ensures |InsertInOrder(tab, text, cs, value)| == |text| + |cs| * |value|
    decreases |cs|
  {
    hide OffsetOf, Inserted;
    if cs != [] {
      InsertedAt(tab, text, cs[0].position, value);
      InOrderLength(tab, Inserted(tab, text, cs[0].position, value), cs[1..], value);
      assert |cs| * |value| == (|cs| - 1) * |value| + |value|;
    }
  }

  lemma {:induction false} AtAllLength(text: bytes, value: bytes, offsets: set<nat>, n: nat)
    requires n <= |text| && forall o <- offsets :: o <= n
    ensures |InsertAtAll(text, value, offsets, n)| == n + |offsets| * |value|
    decreases n
  {
    var below := offsets - {n};
    assert offsets == if n in offsets then below + {n} else below;
    assert n in offsets ==> |offsets| * |value| == |below| * |value| + |value|;
    if n == 0 {
      assert below == {};
    } else {
      AtAllLength(text, value, below, n - 1);
      LaterOffsetsIrrelevant(text, value, offsets, below, n - 1);
    }
  }

  lemma FewerBytes(a: nat, b: nat, v: nat)
    requires a < b && v > 0
    ensures a * v < b * v
  {
  }

  /** Inserting at shared offsets makes the text longer than inserting once at each. */
  lemma SharedOffsetsInsertMore(tab: Table, text: bytes, cs: seq<Cursor>, value: bytes)
    requires value != [] && |OffsetsOf(tab, text, cs)| != |cs|
    ensures |InsertInOrder(tab, text, cs, value)|
          > |InsertAtAll(text, value, OffsetsOf(tab, text, cs), |text|)|
  {
    hide InsertInOrder, InsertAtAll, OffsetOf;
    var offsets := OffsetsOf(tab, text, cs);
    forall c | c in cs
      ensures OffsetOf(tab, text, c.position) <= |text|
    {
      OffsetBounded(tab, text, c.position);
    }
    InOrderLength(tab, text, cs, value);
    AtAllLength(text, value, offsets, |text|);
    FewerOffsets(tab, text, cs);
    FewerBytes(|offsets|, |cs|, |value|);
  }

  lemma NothingToInsert(tab: Table, text: bytes, cs: seq<Cursor>)
    ensures InsertInOrder(tab, text, cs, []) == text == InsertAtAll(text, [], OffsetsOf(tab, text, cs), |text|)
  {
    NothingInOrder(tab, text, cs);
    NothingAtAll(text, OffsetsOf(tab, text, cs), |text|);
    assert text[..|text|] == text;
  }

  lemma {:induction false} NothingInOrder(tab: Table, text: bytes, cs: seq<Cursor>)
    ensures InsertInOrder(tab, text, cs, []) == text
    decreases |cs|
  {
    hide OffsetOf, Inserted;
    if cs != [] {
      InsertedAt(tab, text, cs[0].position, []);
      var o := OffsetOf(tab, text, cs[0].position);
      assert text[..o] + [] + text[o..] == text;
      NothingInOrder(tab, text, cs[1..]);
    }
  }

  lemma {:induction false} NothingAtAll(text: bytes, offsets: set<nat>, n: nat)
    requires n <= |text|
    ensures InsertAtAll(text, [], offsets, n) == text[..n]
  {
    if n > 0 {
      NothingAtAll(text, offsets, n - 1);
    }
  }

  lemma MovedPositions(tab: Table, text: bytes, cs: seq<Cursor>, moved: seq<Cursor>, motion: Motion)
    requires |moved| == |cs|
    requires forall j :: 0 <= j < |cs| ==> moved[j].position == Target(tab, text, cs[j], motion)
    ensures Positions(moved) == set c <- cs :: Target(tab, text, c, motion)
  {
    hide Target;
    assert forall j :: 0 <= j < |cs| ==> moved[j] in moved && cs[j] in cs;
  }

  class CursorSet {
    const buffer: Buffer
    var cursors: seq<Cursor>

    /** The cursors are in order and no two share a position. */
    ghost predicate Valid()
      reads this, buffer, buffer.cell
    {
      buffer.Valid() && StrictlyAscending(cursors)
    }

    constructor (buffer: Buffer)
      requires buffer.Valid()
      ensures Valid() && this.buffer == buffer && cursors == []
    {
      this.buffer := buffer;
      cursors := [];
    }

    method Add(position: Position)
      requires Valid()
      modifies this
      ensures Valid() && Positions(cursors) == old(Positions(cursors)) + {position}
      ensures forall c <- cursors :: c in old(cursors) || c == Cursor(position, Pos(0, 0), position.col)
    {
      cursors := Merge(cursors + [CursorAt(position)]);
    }

    /** `move`: every cursor moves; cursors that meet become one. */
    method MoveEach(motion: Motion, extend: bool)
      requires Valid()
      modifies this
      ensures Valid()
      ensures Positions(cursors)
           == set c <- old(cursors) :: Target(buffer.tab, buffer.Text(), c, motion)
      ensures forall c <- cursors ::
                exists d <- old(cursors) :: c == Moved(buffer.tab, buffer.Text(), d, motion, extend)
    {
      hide Target, Positions, StrictlyAscending;
      var moved: seq<Cursor> := [];
      for i := 0 to |cursors|
        invariant cursors == old(cursors) && |moved| == i
        invariant forall j :: 0 <= j < i ==> moved[j] == Moved(buffer.tab, buffer.Text(), cursors[j], motion, extend)
      {
        var next := Move(cursors[i], buffer, motion, extend);
        moved := moved + [next];
      }
      MovedPositions(buffer.tab, buffer.Text(), cursors, moved, motion);
      cursors := Merge(moved);
    }

    /** `insert_each`. */
    method InsertEach(text: bytes)
      requires Valid()
      modifies this, buffer, buffer.cell
      ensures Valid()
      ensures exists down :: StrictlyDescending(down) && multiset(down) == multiset(old(cursors))
                             && buffer.Text() == InsertInOrder(buffer.tab, old(buffer.Text()), down, text)
      ensures Plain(buffer.tab, BytesOf(old(buffer.Text()) + text))
              && Settled(buffer.tab, old(buffer.Text()), old(cursors)) ==>
                var offsets := OffsetsOf(buffer.tab, old(buffer.Text()), old(cursors));
                var atOnce := InsertAtAll(old(buffer.Text()), text, offsets, |old(buffer.Text())|);
                buffer.Text() == atOnce <==> text == [] || |offsets| == |old(cursors)|
      ensures var columns := CountFrom(buffer.tab, text, 0);
              Positions(cursors) == set c <- old(cursors) :: Pos(c.position.line, c.position.col + columns)
      ensures forall c <- cursors :: c.anchor == c.position && c.sticky == c.position.col
    {
      hide *;
      ghost var original, were := buffer.Text(), cursors;
      CursorsAscend();
      var down := SortDescending(cursors);
      SortedIsStrict(down, cursors);
      ghost var alphabet := BytesOf(original + text);
      OverItsBytes(original, text);
      InsertsSimultaneously(buffer.tab, alphabet, original, were, down, text);
      var columns := Count(buffer.tab, text);
      var moved := InsertDown(down, text, columns);
      ShiftedPositions(were, down, moved, columns);
      cursors := Merge(moved);
      StillValid();
    }

    lemma CursorsAscend()
      requires Valid()
      ensures StrictlyAscending(cursors) && buffer.Valid()
    {
    }

    lemma StillValid()
      requires StrictlyAscending(cursors) && buffer.Valid()
      ensures Valid()
    {
    }

    /** The loop of `insert_each`. */
    method InsertDown(down: seq<Cursor>, text: bytes, columns: nat) returns (moved: seq<Cursor>)
      requires buffer.Valid()
      modifies buffer, buffer.cell
      ensures buffer.Valid() && (buffer.cell == old(buffer.cell) || fresh(buffer.cell))
      ensures buffer.Text() == InsertInOrder(buffer.tab, old(buffer.Text()), down, text)
      ensures |moved| == |down|
      ensures forall j :: 0 <= j < |down| ==>
                moved[j].position == Pos(down[j].position.line, down[j].position.col + columns)
      ensures forall c <- moved :: c.anchor == c.position && c.sticky == c.position.col
    {
      hide Inserted;
      moved := [];
      for i := 0 to |down|
        invariant |moved| == i
        invariant forall j :: 0 <= j < i ==>
            moved[j].position == Pos(down[j].position.line, down[j].position.col + columns)
        invariant forall c <- moved :: c.anchor == c.position && c.sticky == c.position.col
        invariant buffer.Valid() && (buffer.cell == old(buffer.cell) || fresh(buffer.cell))
        invariant InsertInOrder(buffer.tab, buffer.Text(), down[i..], text)
               == InsertInOrder(buffer.tab, old(buffer.Text()), down, text)
      {
        var position := down[i].position;
        buffer.Insert(position, text);
        assert down[i..][1..] == down[i + 1..];
        var at := Pos(position.line, position.col + columns);
        moved := moved + [Cursor(at, at, at.col)];
      }
      assert down[|down|..] == [];
    }
  }

  lemma ShiftedPositions(were: seq<Cursor>, down: seq<Cursor>, moved: seq<Cursor>, columns: nat)
    requires multiset(down) == multiset(were) && |moved| == |down|
    requires forall j :: 0 <= j < |down| ==>
               moved[j].position == Pos(down[j].position.line, down[j].position.col + columns)
    ensures Positions(moved) == set c <- were :: Pos(c.position.line, c.position.col + columns)
  {
    SameCursors(down, were);
    forall c | c in were
      ensures Pos(c.position.line, c.position.col + columns) in Positions(moved)
    {
      var j :| 0 <= j < |down| && down[j] == c;
      assert moved[j] in moved;
    }
    forall m | m in moved
      ensures exists c :: c in were && m.position == Pos(c.position.line, c.position.col + columns)
    {
      var j :| 0 <= j < |moved| && moved[j] == m;
      assert down[j] in were;
    }
  }

  lemma OverItsBytes(text: bytes, value: bytes)
    ensures Over(BytesOf(text + value), text) && Over(BytesOf(text + value), value)
  {
    var all := text + value;
    assert forall i :: 0 <= i < |text| ==> text[i] == all[i] && all[i] in all;
    assert forall i :: 0 <= i < |value| ==> value[i] == all[|text| + i] && all[|text| + i] in all;
  }

  lemma SameCursors(a: seq<Cursor>, b: seq<Cursor>)
    requires multiset(a) == multiset(b)
    ensures |a| == |b| && forall c :: c in a <==> c in b
  {
    assert |a| == |multiset(a)| && |b| == |multiset(b)|;
    forall c ensures c in a <==> c in b {
      assert c in multiset(a) <==> c in multiset(b);
    }
  }

  /** Every cursor is on a line, or it is the last one and none has a greater offset. */
  ghost predicate Settled(tab: Table, text: bytes, cs: seq<Cursor>) {
    forall c <- cs :: c.position.line < |LineStarts(text)| || Foremost(tab, text, cs, c)
  }

  ghost predicate Foremost(tab: Table, text: bytes, cs: seq<Cursor>, c: Cursor) {
    forall d <- cs ::
      !Before(c.position, d.position) && OffsetOf(tab, text, d.position) <= OffsetOf(tab, text, c.position)
  }

  /**
   * Where bytes never join, and with cursors on lines but for the last one, inserting from the right
   * end leaves the text inserted once at every cursor's offset exactly when no two cursors share an
   * offset, or there is nothing to insert.
   */
  lemma InsertsSimultaneously(tab: Table, alphabet: set<byte>, text: bytes, cursors: seq<Cursor>,
                              down: seq<Cursor>, value: bytes)
    requires StrictlyDescending(down) && multiset(down) == multiset(cursors)
    ensures Plain(tab, alphabet) && Over(alphabet, text) && Over(alphabet, value) && Settled(tab, text, cursors) ==>
              (InsertInOrder(tab, text, down, value)
                 == InsertAtAll(text, value, OffsetsOf(tab, text, cursors), |text|)
               <==> value == [] || |OffsetsOf(tab, text, cursors)| == |cursors|)
  {
    hide OffsetOf, Inserted, InsertAtAll, InsertInOrder, LineStarts, Plain, Over, AsciiTable, StrictlyDescending;
    hide Settled;
    SameCursors(down, cursors);
    assert OffsetsOf(tab, text, down) == OffsetsOf(tab, text, cursors);
    if Plain(tab, alphabet) && Over(alphabet, text) && Over(alphabet, value) && Settled(tab, text, cursors) {
      if value == [] {
        NothingToInsert(tab, text, down);
      } else if |OffsetsOf(tab, text, down)| != |down| {
        SharedOffsetsInsertMore(tab, text, down, value);
      } else if down == [] {
        NoCursors(tab, text, value);
      } else {
        DownSettled(tab, text, cursors, down);
        FirstMayBePast(tab, alphabet, text, down, value);
      }
    }
  }

  lemma NoCursors(tab: Table, text: bytes, value: bytes)
    ensures InsertInOrder(tab, text, [], value) == text == InsertAtAll(text, value, OffsetsOf(tab, text, []), |text|)
  {
    NoOffsets(tab, text);
    NothingInserted(text, value, |text|);
    assert text[..|text|] == text;
  }

  /** All cursors but the first are on lines, and when that one is not, no offset is beyond its own. */
  lemma DownSettled(tab: Table, text: bytes, cursors: seq<Cursor>, down: seq<Cursor>)
    requires Settled(tab, text, cursors) && multiset(down) == multiset(cursors)
    requires StrictlyDescending(down) && down != []
    ensures OnLines(text, down[1..])
    ensures down[0].position.line < |LineStarts(text)| || Foremost(tab, text, down, down[0])
  {
    hide LineStarts, OffsetOf, Before;
    SameCursors(down, cursors);
    assert down[0] in down;
    forall i | 0 <= i < |down[1..]|
      ensures down[1..][i].position.line < |LineStarts(text)|
    {
      var c := down[i + 1];
      assert c in down && Before(c.position, down[0].position);
    }
  }

  /** The first insertion may be past the last line, when no other offset is beyond it. */
  lemma FirstMayBePast(tab: Table, alphabet: set<byte>, text: bytes, down: seq<Cursor>, value: bytes)
    requires Plain(tab, alphabet) && Over(alphabet, text) && Over(alphabet, value)
    requires StrictlyDescending(down) && down != [] && OnLines(text, down[1..])
    requires down[0].position.line < |LineStarts(text)| || Foremost(tab, text, down, down[0])
    requires |OffsetsOf(tab, text, down)| == |down|
    ensures InsertInOrder(tab, text, down, value)
         == InsertAtAll(text, value, OffsetsOf(tab, text, down), |text|)
  {
    hide AsciiTable, Plain, Over, OffsetOf, Inserted, InsertAtAll, OffsetsOf, OnLines, StrictlyDescending, LineStarts;
    hide Foremost;
    var p, rest := down[0].position, down[1..];
    var o := OffsetOf(tab, text, p);
    FirstIsGreatest(tab, alphabet, text, down);
    OffsetsCons(tab, text, down);
    InsertedAt(tab, text, p, value);
    PlainParts(alphabet, text, value, o, o);
    var next := text[..o] + value + text[o..];
    assert next[..o] == text[..o] && next[o..] == value + text[o..];
    InOrderIsSimultaneous(tab, alphabet, text, next, rest, value, o);
    InsertionSplits(text, value, OffsetsOf(tab, text, rest), o, |text|);
    Regroup(InsertAtAll(text, value, OffsetsOf(tab, text, rest), o), value, text[o..], []);
  }

  /** Two cursors past the end of an empty text land on one offset, and the text is inserted twice. */
  lemma PastTheEndInsertsTwice(tab: Table)
    ensures var down := [CursorAt(Pos(0, 1)), CursorAt(Pos(0, 0))];
            && InsertInOrder(tab, [], down, [LF]) == [LF, LF]
            && InsertAtAll([], [LF], OffsetsOf(tab, [], down), 0) == [LF]
  {
    hide NextBreak;
    var down := [CursorAt(Pos(0, 1)), CursorAt(Pos(0, 0))];
    assert OffsetOf(tab, [], Pos(0, 1)) == 0;
    assert down[0] in down && 0 in OffsetsOf(tab, [], down);
    assert Inserted(tab, [], Pos(0, 1), [LF]) == [LF];
    assert down[1..] == [CursorAt(Pos(0, 0))] && down[1..][1..] == [];
    assert OffsetOf(tab, [LF], Pos(0, 0)) == 0;
    assert Inserted(tab, [LF], Pos(0, 0), [LF]) == [LF, LF];
  }

  /**
   * Past the last line different offsets are not enough: the cursor on line 2 goes first, at the
   * smaller offset, and the one on line 1 finds its column in the longer text.
   */
  lemma PastTheLastLineMisplaces(tab: Table)
    requires AsciiTable(tab)
    ensures var text: bytes, x: bytes := [0x61, 0x62], [0x78];
            var down := [CursorAt(Pos(2, 1)), CursorAt(Pos(1, 2))];
            && StrictlyDescending(down) && |OffsetsOf(tab, text, down)| == 2
            && InsertInOrder(tab, text, down, x) == [0x61, 0x78, 0x78, 0x62]
            && InsertAtAll(text, x, OffsetsOf(tab, text, down), 2) == [0x61, 0x78, 0x62, 0x78]
  {
    hide NextBreak, OffsetOf, AsciiTable, Inserted, InsertInOrder, OffsetsOf;
    var text: bytes, x: bytes, longer: bytes := [0x61, 0x62], [0x78], [0x61, 0x78, 0x62];
    var down := [CursorAt(Pos(2, 1)), CursorAt(Pos(1, 2))];
    OneLineOffset(tab, text, Pos(2, 1));
    OneLineOffset(tab, text, Pos(1, 2));
    OneLineOffset(tab, longer, Pos(1, 2));
    InsertedAt(tab, text, Pos(2, 1), x);
    InsertedAt(tab, longer, Pos(1, 2), x);
    assert text[..1] + x + text[1..] == longer;
    assert longer[..2] + x + longer[2..] == [0x61, 0x78, 0x78, 0x62];
    TwoInOrder(tab, text, down, x);
    TwoOffsets(tab, text, down);
    assert OffsetsOf(tab, text, down) == {1, 2};
    assert InsertAtAll(text, x, {1, 2}, 0) == [];
    assert InsertAtAll(text, x, {1, 2}, 1) == [0x61, 0x78];
  }

  lemma OneLineOffset(tab: Table, text: bytes, p: Position)
    requires AsciiTable(tab) && forall i :: 0 <= i < |text| ==> 0x61 <= text[i] < 0x80
    ensures OffsetOf(tab, text, p) == Min(p.col, |text|)
  {
    hide NextBreak;
    var alphabet: set<byte> := BytesOf(text);
    OverItsBytes(text, []);
    assert text + [] == text;
    NoLeadsNeverJoin(alphabet);
    NoFeedOneStart(text, |text|);
    PlainWalk(tab, alphabet, text, 0, |text|, p.col);
  }

  lemma TwoInOrder(tab: Table, text: bytes, cs: seq<Cursor>, value: bytes)
    requires |cs| == 2
    ensures InsertInOrder(tab, text, cs, value)
         == Inserted(tab, Inserted(tab, text, cs[0].position, value), cs[1].position, value)
  {
    hide Inserted;
    var rest := cs[1..];
    assert rest[0] == cs[1] && rest[1..] == [];
    var one := Inserted(tab, text, cs[0].position, value);
    assert InsertInOrder(tab, one, rest, value)
        == InsertInOrder(tab, Inserted(tab, one, rest[0].position, value), rest[1..], value);
  }

  lemma TwoOffsets(tab: Table, text: bytes, cs: seq<Cursor>)
    requires |cs| == 2
    ensures OffsetsOf(tab, text, cs)
         == {OffsetOf(tab, text, cs[0].position), OffsetOf(tab, text, cs[1].position)}
  {
    hide OffsetOf;
    OffsetsCons(tab, text, cs);
    OffsetsCons(tab, text, cs[1..]);
    assert cs[1..][0] == cs[1] && cs[1..][1..] == [];
  }
}
