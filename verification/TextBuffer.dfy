/** The copy-on-write text buffer and its snapshots, of TTyUtils-TextBuffer. */
module TextBuffer {
  import opened Bytes
  import opened Grapheme
  import opened Clusters
  import opened LineIndexes

  // ----- what the operations do to the text

  function Splice(text: bytes, begin: nat, end: nat, value: bytes): bytes
    requires begin <= end <= |text|
  {
    text[..begin] + value + text[end..]
  }

  lemma OffsetBounded(tab: Table, text: bytes, position: Position)
    ensures OffsetOf(tab, text, position) <= |text|
  {
    hide LineStarts, NextBreak;
    LineStartsFacts(text);
    var starts := LineStarts(text);
    var line := Min(position.line, |starts| - 1);
    var end := LineEnd(starts, text, line);
    if starts[line] < end {
      WalkColumns(tab, text, starts[line], end, position.col);
    }
  }

  function Inserted(tab: Table, text: bytes, position: Position, value: bytes): bytes {
    OffsetBounded(tab, text, position);
    var at := OffsetOf(tab, text, position);
    Splice(text, at, at, value)
  }

  function Erased(tab: Table, text: bytes, first: Position, last: Position): bytes {
    OffsetBounded(tab, text, first);
    OffsetBounded(tab, text, last);
    var begin, end := OffsetOf(tab, text, first), OffsetOf(tab, text, last);
    if end > begin then Splice(text, begin, end, []) else text
  }

  function Replaced(tab: Table, text: bytes, first: Position, last: Position, value: bytes): bytes {
    Inserted(tab, Erased(tab, text, first, last), first, value)
  }

  /** What is erased lies between the two offsets; a range that ends before it begins holds nothing. */
  lemma ErasedIs(tab: Table, text: bytes, first: Position, last: Position)
    ensures var b, e := OffsetOf(tab, text, first), OffsetOf(tab, text, last);
            if b < e then e <= |text| && Erased(tab, text, first, last) == text[..b] + text[e..]
            else Erased(tab, text, first, last) == text
  {
    hide OffsetOf;
    OffsetBounded(tab, text, last);
  }

  /** Line `number` without its line feed; nothing when there is no such line. */
  function LineText(text: bytes, number: nat): bytes {
    var starts := LineStarts(text);
    if number >= |starts| then []
    else
      LineStartsFacts(text);
      text[starts[number]..FindByte(text, LF, starts[number])]
  }

  /** The slice between a line's start and its end is the line. */
  lemma LineTextIsSlice(text: bytes, number: nat)
    requires number < |LineStarts(text)|
    ensures var starts := LineStarts(text);
            && starts[number] <= LineEnd(starts, text, number) <= |text|
            && LineText(text, number) == text[starts[number]..LineEnd(starts, text, number)]
            && LF !in LineText(text, number)
  {
    hide LineStarts;
    LineHasNoFeed(text, number);
    var starts := LineStarts(text);
    var end := LineEnd(starts, text, number);
    assert FindByte(text, LF, starts[number]) == end;
  }

  lemma NoSuchLine(text: bytes, number: nat)
    requires number >= |LineStarts(text)|
    ensures LineText(text, number) == []
  {
  }

  // ----- replacing the whole text

  /** The end of the last line, as callers compute it. */
  function EndPosition(tab: Table, text: bytes): Position {
    var last := |LineStarts(text)| - 1;
    Pos(last, CountFrom(tab, LineText(text, last), 0))
  }

  lemma OffsetOfEnd(tab: Table, text: bytes)
    ensures OffsetOf(tab, text, Pos(0, 0)) == 0
    ensures OffsetOf(tab, text, EndPosition(tab, text)) == |text|
  {
    hide LineStarts, NextBreak, FindByte;
    var starts := LineStarts(text);
    var last := |starts| - 1;
    LineHasNoFeed(text, last);
    LineTextIsSlice(text, last);
    var front, rest := text[..starts[last]], text[starts[last]..];
    assert text == front + rest && LineText(text, last) == rest;
    CountToEnd(tab, rest, 0);
    ChainSuffix(tab, front, rest, 0, |rest|);
    ChainToEnd(tab, text, starts[last]);
    WalkReaches(tab, text, starts[last], |text|, |text|);
  }

  /** Erasing from the origin to the end of the last line empties every byte string. */
  lemma EraseAll(tab: Table, text: bytes)
    ensures Erased(tab, text, Pos(0, 0), EndPosition(tab, text)) == []
  {
    hide OffsetOf;
    OffsetOfEnd(tab, text);
  }

  lemma InsertIntoEmpty(tab: Table, value: bytes)
    ensures Inserted(tab, [], Pos(0, 0), value) == value
  {
  }

  // ----- the classes

  /** A `std::shared_ptr` target: the string and how many holders share it. */
  class SharedText {
    var data: bytes
    var uses: nat

    constructor (data: bytes)
      ensures this.data == data && uses == 1
    {
      this.data := data;
      uses := 1;
    }
  }

  /** `Snapshot`: a read-only holder of a shared text. */
  class Snapshot {
    const cell: SharedText
    const generation: nat

    constructor (cell: SharedText, generation: nat)
      modifies cell`uses
      ensures this.cell == cell && this.generation == generation && cell.uses == old(cell.uses) + 1
    {
      this.cell := cell;
      this.generation := generation;
      new;
      cell.uses := cell.uses + 1;
    }

    function Text(): bytes
      reads cell
    {
      cell.data
    }
  }

  class Buffer {
    const tab: Table
    var cell: SharedText
    var generation: nat

    ghost predicate Valid()
      reads this, cell
    {
      cell.uses > 0
    }

    function Text(): bytes
      reads this, cell
    {
      cell.data
    }

    constructor (tab: Table, text: bytes)
      ensures Valid() && fresh(cell) && cell.uses == 1
      ensures this.tab == tab && Text() == text && generation == 0
    {
      this.tab := tab;
      generation := 0;
      cell := new SharedText(text);
    }

    constructor Sharing(tab: Table, cell: SharedText, generation: nat)
      modifies cell`uses
      ensures this.tab == tab && this.cell == cell && this.generation == generation
      ensures cell.uses == old(cell.uses) + 1
    {
      this.tab := tab;
      this.cell := cell;
      this.generation := generation;
      new;
      cell.uses := cell.uses + 1;
    }

    /** The implicit copy constructor: the copy shares the text. */
    method Copy() returns (b: Buffer)
      modifies cell`uses
      ensures fresh(b) && b.tab == tab && b.cell == cell && b.generation == generation
      ensures cell.uses == old(cell.uses) + 1
    {
      b := new Buffer.Sharing(tab, cell, generation);
    }

    method TakeSnapshot() returns (s: Snapshot)
      modifies cell`uses
      ensures fresh(s) && s.cell == cell && s.generation == generation && cell.uses == old(cell.uses) + 1
    {
      s := new Snapshot(cell, generation);
    }

    /** After an edit: a private text is edited in place, a shared one is left to the other holders. */
    twostate predicate Detached(was: SharedText)
      reads this, cell, was
    {
      && cell.uses == 1
      && (old(was.uses) == 1 ==> cell == was)
      && (old(was.uses) > 1 ==> fresh(cell) && was.uses == old(was.uses) - 1 && was.data == old(was.data))
    }

    method Detach()
      requires Valid()
      modifies this`cell, cell`uses
      ensures Detached(old(cell)) && Text() == old(Text())
    {
      if cell.uses != 1 {
        cell.uses := cell.uses - 1;
        cell := new SharedText(cell.data);
      }
    }

    method Insert(position: Position, value: bytes)
      requires Valid()
      modifies this, cell
      ensures Valid() && Detached(old(cell))
      ensures Text() == Inserted(tab, old(Text()), position, value)
      ensures generation == old(generation) + 1
    {
      hide OffsetOf, OffsetIn, LineStarts;
      Detach();
      var index := new LineIndex(tab, cell.data);
      var at := index.Offset(position, cell.data);
      OffsetBounded(tab, cell.data, position);
      assert at == OffsetOf(tab, cell.data, position) by { RevealOffsetOf(tab, cell.data, position); }
      cell.data := Splice(cell.data, at, at, value);
      generation := generation + 1;
    }

    method Erase(first: Position, last: Position)
      requires Valid()
      modifies this, cell
      ensures Valid() && Detached(old(cell))
      ensures Text() == Erased(tab, old(Text()), first, last)
      ensures generation == old(generation) + 1
    {
      hide OffsetOf, OffsetIn, LineStarts;
      Detach();
      var index := new LineIndex(tab, cell.data);
      var begin := index.Offset(first, cell.data);
      var end := index.Offset(last, cell.data);
      OffsetBounded(tab, cell.data, first);
      OffsetBounded(tab, cell.data, last);
      RevealOffsetOf(tab, cell.data, first);
      RevealOffsetOf(tab, cell.data, last);
      if end > begin {
        cell.data := Splice(cell.data, begin, end, []);
      }
      generation := generation + 1;
    }

    method Replace(first: Position, last: Position, value: bytes)
      requires Valid()
      modifies this, cell
      ensures Valid() && Detached(old(cell))
      ensures Text() == Replaced(tab, old(Text()), first, last, value)
      ensures generation == old(generation) + 2
    {
      Erase(first, last);
      Insert(first, value);
    }

    method Line(number: nat) returns (line: bytes)
      ensures line == LineText(Text(), number)
    {
      hide LineStarts;
      var index := new LineIndex(tab, cell.data);
      var lines := index.Lines();
      if number >= lines {
        return [];
      }
      var begin := index.Offset(Pos(number, 0), cell.data);
      LineStartsFacts(cell.data);
      var end := FindByte(cell.data, LF, begin);
      line := cell.data[begin..end];
    }

    /** How `set_text`, `Patch::apply` and `reflow` replace the whole text. */
    method Overwrite(value: bytes)
      requires Valid()
      modifies this, cell
      ensures Valid() && Detached(old(cell)) && Text() == value
    {
      hide Inserted, Erased, LineStarts, LineText, CountFrom, ClustersFrom;
      EraseAll(tab, Text());
      var index := new LineIndex(tab, Text());
      var lines := index.Lines();
      var line := Line(lines - 1);
      var columns := Count(tab, line);
      assert Pos(lines - 1, columns) == EndPosition(tab, Text());
      Erase(Pos(0, 0), Pos(lines - 1, columns));
      InsertIntoEmpty(tab, value);
      Insert(Pos(0, 0), value);
    }
  }

  lemma RevealOffsetOf(tab: Table, text: bytes, position: Position)
    ensures OffsetOf(tab, text, position) == OffsetIn(tab, LineStarts(text), text, position)
  {
  }
}
