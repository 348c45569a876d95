/** The text grid, cursor and scrollback of TTyUtils-Terminal. */
module Terminals {
  import opened Bytes
  import opened Decimal

  const UPPER_H: byte := 0x48
  const LOWER_F: byte := 0x66
  const UPPER_J: byte := 0x4A
  const UPPER_K: byte := 0x4B

  /** The emulator's fields, with every line that ever left the top of the screen. */
  datatype Grid = Grid(rows: nat, columns: nat, row: nat, col: nat, screen: seq<bytes>, evicted: seq<bytes>)

  function Spaces(n: nat): (line: bytes)
    ensures |line| == n && forall i :: 0 <= i < n ==> line[i] == SPACE
  {
    seq(n, _ => SPACE)
  }

  function BlankScreen(rows: nat, columns: nat): seq<bytes> {
    seq(rows, _ => Spaces(columns))
  }

  function Last(n: nat): nat {
    if n == 0 then 0 else n - 1
  }

  /** The grid is exactly rows by columns and the cursor is inside it. */
  ghost predicate GridValid(g: Grid) {
    && |g.screen| == g.rows
    && (forall k :: 0 <= k < |g.screen| ==> |g.screen[k]| == g.columns)
    && g.row <= Last(g.rows) && g.col <= Last(g.columns)
  }

  function Written(line: bytes, col: nat, b: byte): (written: bytes)
    requires col < |line|
    ensures |written| == |line|
  {
    line[..col] + [b] + line[col + 1..]
  }

  // ----- what each operation does

  /** `put`; a `char` is signed, so bytes from 0x80 on are below 0x20 and print nothing. */
  function Put(g: Grid, b: byte): Grid
    requires GridValid(g) && (g.rows > 0 || b != LF)
  {
    if b == CR then g.(col := 0)
    else if b == LF then
      if g.row + 1 >= g.rows
      then g.(evicted := g.evicted + [g.screen[0]], screen := g.screen[1..] + [Spaces(g.columns)])
      else g.(row := g.row + 1)
    else if b < 0x20 || b >= 0x80 || g.rows == 0 || g.columns == 0 then g
    else g.(screen := g.screen[g.row := Written(g.screen[g.row], g.col, b)],
            col := if g.col + 1 < g.columns then g.col + 1 else g.col)
  }

  function FieldValue(field: bytes): uint32 {
    var value := ParseUnsigned(field);
    if value.Some? then value.value else 0
  }

  /** The numeric fields of a CSI; an empty, malformed or too large field is 0. */
  function Fields(parameters: bytes, start: nat): (values: seq<uint32>)
    requires start <= |parameters|
    ensures values != []
    decreases |parameters| - start
  {
    var end := FindByte(parameters, SEMICOLON, start);
    [FieldValue(parameters[start..end])] + if end == |parameters| then [] else Fields(parameters, end + 1)
  }

  function OneIfZero(n: nat): (r: nat)
    ensures r >= 1
  {
    if n == 0 then 1 else n
  }

  function HandleCsi(g: Grid, parameters: bytes, final: byte): Grid
    requires GridValid(g)
  {
    var values := Fields(parameters, 0);
    var first := OneIfZero(values[0]);
    var second := if |values| < 2 then 1 else OneIfZero(values[1]);
    if final == UPPER_H || final == LOWER_F then
      g.(row := Min(first - 1, Last(g.rows)), col := Min(second - 1, Last(g.columns)))
    else if final == UPPER_J && first == 2 then g.(screen := BlankScreen(g.rows, g.columns))
    else if final == UPPER_K && g.row < |g.screen| then
      g.(screen := g.screen[g.row := g.screen[g.row][..g.col] + Spaces(g.columns - g.col)])
    else g
  }

  // ----- one feed

  function FindFinal(input: bytes, from: nat): (at: nat)
    requires from <= |input|
    ensures from <= at <= |input|
    ensures at < |input| ==> 0x40 <= input[at] <= 0x7E
    ensures forall i :: from <= i < at ==> !(0x40 <= input[i] <= 0x7E)
    decreases |input| - from
  {
    if from == |input| || 0x40 <= input[from] <= 0x7E then from else FindFinal(input, from + 1)
  }

  /** The next ESC `\`, or the length. */
  function FindTerminator(input: bytes, from: nat): (at: nat)
    requires from <= |input|
    ensures from <= at <= |input|
    ensures at < |input| ==> at + 1 < |input| && input[at] == ESC && input[at + 1] == BACKSLASH
    decreases |input| - from
  {
    if from == |input| then from
    else if from + 1 < |input| && input[from] == ESC && input[from + 1] == BACKSLASH then from
    else FindTerminator(input, from + 1)
  }

  predicate Introduces(input: bytes, at: nat, letter: byte) {
    at + 1 < |input| && input[at] == ESC && input[at + 1] == letter
  }

  /** What the scan of a feed finds: a byte to put, a whole control sequence, or one that the feed does not finish. */
  datatype Item = Byte | Csi(final: nat) | Osc(end: nat) | Unfinished

  function ItemAt(input: bytes, at: nat): (item: Item)
    requires at < |input|
    ensures item.Csi? ==> at + 2 <= item.final < |input|
    ensures item.Osc? ==> at + 2 <= item.end < |input| && (input[item.end] == BEL || item.end + 1 < |input|)
  {
    if Introduces(input, at, LEFT_BRACKET) then
      var final := FindFinal(input, at + 2);
      if final == |input| then Unfinished else Csi(final)
    else if Introduces(input, at, RIGHT_BRACKET) then
      var bell, st := FindByte(input, BEL, at + 2), FindTerminator(input, at + 2);
      var end := if bell < st then bell else st;
      if end == |input| then Unfinished else Osc(end)
    else Byte
  }

  /** Where the scan goes on; an unfinished sequence ends it. */
  function After(input: bytes, at: nat, item: Item): (next: nat)
    requires at < |input| && item == ItemAt(input, at)
    ensures at < next <= |input|
  {
    match item
    case Byte => at + 1
    case Csi(final) => final + 1
    case Osc(end) => if input[end] == BEL then end + 1 else end + 2
    case Unfinished => |input|
  }

  /** The scan puts no line feed: what a screen without rows needs. */
  predicate PutsNoFeed(input: bytes, at: nat)
    requires at <= |input|
    decreases |input| - at
  {
    at < |input| ==>
      var item := ItemAt(input, at);
      (item.Byte? ==> input[at] != LF) && PutsNoFeed(input, After(input, at, item))
  }

  /** The grid and the OSC callbacks after feeding input[at..]. */
  datatype Fed = Fed(grid: Grid, osc: seq<(bytes, bytes)>)

  function OscParts(payload: bytes): (bytes, bytes) {
    var separator := FindByte(payload, SEMICOLON, 0);
    if separator == |payload| then ([], []) else (payload[..separator], payload[separator + 1..])
  }

  /** The grid after one item. */
  function GridAfter(g: Grid, input: bytes, at: nat, item: Item): (h: Grid)
    requires GridValid(g) && at < |input| && item == ItemAt(input, at)
    requires g.rows > 0 || (item.Byte? ==> input[at] != LF)
    ensures GridValid(h) && h.rows == g.rows && h.columns == g.columns
  {
    match item
    case Byte =>
      PutKeepsValid(g, input[at]);
      Put(g, input[at])
    case Csi(final) =>
      CsiKeepsValid(g, input[at + 2..final], input[final]);
      HandleCsi(g, input[at + 2..final], input[final])
    case Osc(_) => g
    case Unfinished => g
  }

  /** The OSC callbacks of one item. */
  function OscOf(input: bytes, at: nat, item: Item): seq<(bytes, bytes)>
    requires at < |input| && item == ItemAt(input, at)
  {
    if item.Osc? then [OscParts(input[at + 2..item.end])] else []
  }

  function FeedFrom(g: Grid, input: bytes, at: nat): Fed
    requires GridValid(g) && at <= |input| && (g.rows > 0 || PutsNoFeed(input, at))
    decreases |input| - at
  {
    if at == |input| then Fed(g, [])
    else
      var item := ItemAt(input, at);
      var rest := FeedFrom(GridAfter(g, input, at, item), input, After(input, at, item));
      rest.(osc := OscOf(input, at, item) + rest.osc)
  }

  lemma PutKeepsValid(g: Grid, b: byte)
    requires GridValid(g) && (g.rows > 0 || b != LF)
    ensures GridValid(Put(g, b)) && Put(g, b).rows == g.rows && Put(g, b).columns == g.columns
  {
  }

  lemma CsiKeepsValid(g: Grid, parameters: bytes, final: byte)
    requires GridValid(g)
    ensures var h := HandleCsi(g, parameters, final);
            GridValid(h) && h.rows == g.rows && h.columns == g.columns && h.evicted == g.evicted
  {
    hide Fields;
  }

  // ----- the classes

  /** The last n lines of a list. */
  function LastLines(lines: seq<bytes>, n: nat): seq<bytes> {
    if |lines| <= n then lines else lines[|lines| - n..]
  }

  lemma LastLinesAre(lines: seq<bytes>, n: nat)
    ensures var kept := LastLines(lines, n);
            && |kept| == Min(|lines|, n)
            && forall k :: 0 <= k < |kept| ==> kept[k] == lines[|lines| - |kept| + k]
  {
  }

  class Scrollback {
    const limit: nat
    var lines: seq<bytes>
    ghost var pushed: seq<bytes>

    /** Exactly the last `limit` lines that were pushed, in order. */
    ghost predicate Valid()
      reads this
    {
      lines == LastLines(pushed, limit)
    }

    constructor (limit: nat)
      ensures Valid() && this.limit == limit && pushed == []
    {
      this.limit := limit;
      lines, pushed := [], [];
    }

    method Push(line: bytes)
      requires Valid()
      modifies this
      ensures Valid() && pushed == old(pushed) + [line]
    {
      lines := lines + [line];
      pushed := pushed + [line];
      if |lines| > limit {
        lines := lines[1..];
      }
    }

    method Clear()
      modifies this
      ensures Valid() && lines == []
    {
      lines, pushed := [], [];
    }
  }

  class Emulator {
    var rows: nat
    var columns: nat
    var cursorRow: nat
    var cursorColumn: nat
    var screen: seq<bytes>
    const scrollback: Scrollback
    /** The arguments of every call of the OSC callback. */
    var osc: seq<(bytes, bytes)>

    ghost function View(): Grid
      reads this, scrollback
    {
      Grid(rows, columns, cursorRow, cursorColumn, screen, scrollback.pushed)
    }

    ghost predicate Valid()
      reads this, scrollback
    {
      GridValid(View()) && scrollback.Valid()
    }

    constructor (rows: nat, columns: nat)
      ensures Valid() && fresh(scrollback) && scrollback.limit == 10000 && osc == []
      ensures View() == Grid(rows, columns, 0, 0, BlankScreen(rows, columns), [])
    {
      this.rows, this.columns, cursorRow, cursorColumn := rows, columns, 0, 0;
      screen := BlankScreen(rows, columns);
      scrollback := new Scrollback(10000);
      osc := [];
    }

    /** `resize`: lines are cut or padded on the right, rows are dropped or added at the bottom. */
    method Resize(rows: nat, columns: nat)
      requires Valid()
      modifies this
      ensures Valid() && this.rows == rows && this.columns == columns && osc == old(osc)
      ensures forall k :: 0 <= k < rows ==>
                screen[k] == if k < old(|screen|) then Fit(old(screen)[k], columns) else Spaces(columns)
      ensures cursorRow == Min(old(cursorRow), Last(rows)) && cursorColumn == Min(old(cursorColumn), Last(columns))
    {
      this.rows := rows;
      this.columns := columns;
      if rows <= |screen| {
        screen := screen[..rows];
      } else {
        screen := screen + BlankScreen(rows - |screen|, columns);
      }
      ghost var sized := screen;
      for k := 0 to |screen|
        invariant |screen| == |sized| == rows
        invariant forall l :: 0 <= l < k ==> screen[l] == Fit(sized[l], columns)
        invariant forall l :: k <= l < rows ==> screen[l] == sized[l]
        modifies this`screen
      {
        screen := screen[k := Fit(screen[k], columns)];
      }
      cursorRow := Min(cursorRow, Last(rows));
      cursorColumn := Min(cursorColumn, Last(columns));
    }

    /** `feed`; a line feed asks for a row to put it on. */
    method Feed(input: bytes)
      requires Valid() && (rows > 0 || PutsNoFeed(input, 0))
      modifies this, scrollback
      ensures Valid()
      ensures View() == FeedFrom(old(View()), input, 0).grid
      ensures osc == old(osc) + FeedFrom(old(View()), input, 0).osc
    {
      hide GridValid, Put, HandleCsi, OscParts, FeedFrom, ItemAt, After, PutsNoFeed, GridAfter, OscOf;
      hide FindFinal, FindByte, FindTerminator, Introduces;
      var at := 0;
      ghost var all := FeedFrom(View(), input, 0);
      while at < |input|
        invariant Valid() && rows == old(rows) && at <= |input| && (rows > 0 || PutsNoFeed(input, at))
        invariant all.grid == FeedFrom(View(), input, at).grid
        invariant old(osc) + all.osc == osc + FeedFrom(View(), input, at).osc
        decreases |input| - at
      {
        NextItem(View(), input, at);
        ItemCases(input, at);
        FeedsOf(View(), input, at);
        if Introduces(input, at, LEFT_BRACKET) {
          var final := FindFinal(input, at + 2);
          if final == |input| {
            break;
          }
          HandleControl(input[at + 2..final], input[final]);
          at := final + 1;
        } else if Introduces(input, at, RIGHT_BRACKET) {
          var bell, st := FindByte(input, BEL, at + 2), FindTerminator(input, at + 2);
          var end := if bell < st then bell else st;
          if end == |input| {
            break;
          }
          osc := osc + [OscParts(input[at + 2..end])];
          at := end + if end == bell then 1 else 2;
        } else {
          PutByte(input[at]);
          at := at + 1;
        }
      }
      FeedEnds(View(), input);
    }

    method PutByte(b: byte)
      requires Valid() && (rows > 0 || b != LF)
      modifies this`cursorRow, this`cursorColumn, this`screen, scrollback
      ensures Valid() && View() == Put(old(View()), b)
    {
      PutKeepsValid(View(), b);
      if b == CR {
        cursorColumn := 0;
        return;
      }
      if b == LF {
        if cursorRow + 1 >= rows {
          scrollback.Push(screen[0]);
          screen := screen[1..] + [Spaces(columns)];
        } else {
          cursorRow := cursorRow + 1;
        }
        return;
      }
      if b < 0x20 || b >= 0x80 || rows == 0 || columns == 0 {
        return;
      }
      screen := screen[cursorRow := Written(screen[cursorRow], cursorColumn, b)];
      if cursorColumn + 1 < columns {
        cursorColumn := cursorColumn + 1;
      }
    }

    method HandleControl(parameters: bytes, final: byte)
      requires Valid()
      modifies this`cursorRow, this`cursorColumn, this`screen
      ensures Valid() && View() == HandleCsi(old(View()), parameters, final)
    {
      hide Fields;
      CsiKeepsValid(View(), parameters, final);
      var values := ReadFields(parameters);
      var first := OneIfZero(values[0]);
      var second := if |values| < 2 then 1 else OneIfZero(values[1]);
      if final == UPPER_H || final == LOWER_F {
        cursorRow := Min(first - 1, Last(rows));
        cursorColumn := Min(second - 1, Last(columns));
      } else if final == UPPER_J && first == 2 {
        screen := BlankScreen(|screen|, columns);
      } else if final == UPPER_K {
        if cursorRow < |screen| {
          screen := screen[cursorRow := screen[cursorRow][..cursorColumn] + Spaces(columns - cursorColumn)];
        }
      }
    }
  }

  /** One turn of the scan. */
  lemma NextItem(g: Grid, input: bytes, at: nat)
    requires GridValid(g) && at < |input| && (g.rows > 0 || PutsNoFeed(input, at))
    ensures var item := ItemAt(input, at);
            var next := After(input, at, item);
            && (g.rows > 0 || (PutsNoFeed(input, next) && (item.Byte? ==> input[at] != LF)))
            && var h := GridAfter(g, input, at, item);
               var rest := FeedFrom(h, input, next);
               FeedFrom(g, input, at) == Fed(rest.grid, OscOf(input, at, item) + rest.osc)
  {
    hide GridValid, GridAfter, OscOf, ItemAt;
  }

  /** What `feed` looks for names the item. */
  lemma ItemCases(input: bytes, at: nat)
    requires at < |input|
    ensures var item := ItemAt(input, at);
            if Introduces(input, at, LEFT_BRACKET) then
              var final := FindFinal(input, at + 2);
              if final == |input| then item == Unfinished
              else item == Csi(final) && After(input, at, item) == final + 1
            else if Introduces(input, at, RIGHT_BRACKET) then
              var bell, st := FindByte(input, BEL, at + 2), FindTerminator(input, at + 2);
              var end := if bell < st then bell else st;
              if end == |input| then item == Unfinished
              else item == Osc(end) && After(input, at, item) == end + if end == bell then 1 else 2
            else item == Byte && After(input, at, item) == at + 1
    ensures ItemAt(input, at) == Unfinished ==> After(input, at, Unfinished) == |input|
  {
    hide FindFinal, FindByte, FindTerminator;
  }

  lemma FeedsOf(g: Grid, input: bytes, at: nat)
    requires GridValid(g) && at < |input|
    requires g.rows > 0 || (ItemAt(input, at).Byte? ==> input[at] != LF)
    ensures var item := ItemAt(input, at);
            && (item == Unfinished ==> GridAfter(g, input, at, item) == g && OscOf(input, at, item) == [])
            && (item.Csi? ==>
                  && GridAfter(g, input, at, item) == HandleCsi(g, input[at + 2..item.final], input[item.final])
                  && OscOf(input, at, item) == [])
            && (item.Osc? ==> GridAfter(g, input, at, item) == g
                              && OscOf(input, at, item) == [OscParts(input[at + 2..item.end])])
            && (item.Byte? ==> GridAfter(g, input, at, item) == Put(g, input[at]) && OscOf(input, at, item) == [])
  {
    hide GridValid, ItemAt, Put, HandleCsi, OscParts;
  }

  lemma FeedEnds(g: Grid, input: bytes)
    requires GridValid(g)
    ensures PutsNoFeed(input, |input|) && FeedFrom(g, input, |input|) == Fed(g, [])
  {
  }

  /** A feed keeps the size of the grid. */
  lemma {:induction false} FeedKeepsShape(g: Grid, input: bytes, at: nat)
    requires GridValid(g) && at <= |input| && (g.rows > 0 || PutsNoFeed(input, at))
    ensures var h := FeedFrom(g, input, at).grid;
            GridValid(h) && h.rows == g.rows && h.columns == g.columns
    decreases |input| - at
  {
    hide GridValid, GridAfter, ItemAt, After, OscOf, PutsNoFeed, FeedFrom;
    if at == |input| {
      FeedEnds(g, input);
    } else {
      NextItem(g, input, at);
      var item := ItemAt(input, at);
      FeedKeepsShape(GridAfter(g, input, at, item), input, After(input, at, item));
    }
  }

  function Fit(line: bytes, columns: nat): bytes {
    if columns <= |line| then line[..columns] else line + Spaces(columns - |line|)
  }

  lemma NextField(parameters: bytes, start: nat)
    requires start <= |parameters|
    ensures var end, fields := FindByte(parameters, SEMICOLON, start), Fields(parameters, start);
            && fields[0] == FieldValue(parameters[start..end])
            && fields[1..] == if end == |parameters| then [] else Fields(parameters, end + 1)
  {
  }

  /** The field loop of `handle_csi`. */
  method ReadFields(parameters: bytes) returns (values: seq<uint32>)
    ensures values == Fields(parameters, 0)
  {
    hide FieldValue, FindByte, Fields;
    ghost var all := Fields(parameters, 0);
    values := [];
    var start := 0;
    while start <= |parameters|
      invariant start <= |parameters|
      invariant |values| <= |all| && values == all[..|values|] && Fields(parameters, start) == all[|values|..]
      decreases |parameters| - start
    {
      var end := FindByte(parameters, SEMICOLON, start);
      var value := FieldValue(parameters[start..end]);
      NextField(parameters, start);
      assert all[|values|] == value && all[|values|..][1..] == all[|values| + 1..];
      values := values + [value];
      if end == |parameters| {
        return;
      }
      start := end + 1;
    }
  }
}
