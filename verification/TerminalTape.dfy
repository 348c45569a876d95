/** The emulator as a bounded window on an append-only tape. */
module TerminalTape {
  import opened Bytes
  import opened Terminals

  // ----- the tape

  /** Everything that was ever on the screen, oldest first. */
  function Tape(g: Grid): seq<bytes> {
    g.evicted + g.screen
  }

  /** The tape gains one blank line and changes nowhere else. */
  ghost predicate Scrolls(g: Grid, h: Grid) {
    Tape(h) == Tape(g) + [Spaces(g.columns)]
  }

  /** The tape is as long as before, and no line above the screen has changed. */
  ghost predicate Stays(g: Grid, h: Grid) {
    h.evicted == g.evicted && |Tape(h)| == |Tape(g)|
  }

  /** One step of the window over the tape. */
  ghost predicate TapeStep(g: Grid, h: Grid) {
    && GridValid(g) && GridValid(h) && h.rows == g.rows && h.columns == g.columns
    && ((g.rows > 0 && Scrolls(g, h)) || Stays(g, h))
  }

  /** A byte either scrolls, or leaves all but the cursor's line alone. */
  lemma PutMovesTape(g: Grid, b: byte)
    requires GridValid(g) && (g.rows > 0 || b != LF)
    ensures TapeStep(g, Put(g, b))
    ensures b == LF && g.row + 1 >= g.rows ==> Scrolls(g, Put(g, b))
    ensures b == LF && g.row + 1 < g.rows ==> Tape(Put(g, b)) == Tape(g)
    ensures b != LF ==> Stays(g, Put(g, b))
    ensures b != LF ==> forall k :: 0 <= k < |Tape(g)| && k != |g.evicted| + g.row ==> Tape(Put(g, b))[k] == Tape(g)[k]
  {
    if b == LF && g.row + 1 >= g.rows {
      assert g.screen == [g.screen[0]] + g.screen[1..];
    }
  }

  lemma CsiMovesTape(g: Grid, parameters: bytes, final: byte)
    requires GridValid(g)
    ensures TapeStep(g, HandleCsi(g, parameters, final)) && Stays(g, HandleCsi(g, parameters, final))
  {
    hide HandleCsi, GridValid;
    CsiKeepsValid(g, parameters, final);
    SameShape(g);
    SameShape(HandleCsi(g, parameters, final));
  }

  lemma SameShape(g: Grid)
    requires GridValid(g)
    ensures |Tape(g)| == |g.evicted| + g.rows
  {
  }

  /** Every item of a feed is one step of the window. */
  lemma ItemMovesTape(g: Grid, input: bytes, at: nat)
    requires GridValid(g) && at < |input| && (g.rows > 0 || PutsNoFeed(input, at))
    ensures TapeStep(g, GridAfter(g, input, at, ItemAt(input, at)))
  {
    hide *;
    NextItem(g, input, at);
    FeedsOf(g, input, at);
    StandsStill(g);
    var item := ItemAt(input, at);
    if item.Byte? {
      PutMovesTape(g, input[at]);
    } else if item.Csi? {
      CsiMovesTape(g, input[at + 2..item.final], input[item.final]);
    }
  }

  lemma StandsStill(g: Grid)
    requires GridValid(g)
    ensures TapeStep(g, g)
  {
  }

  // ----- a feed is a run of steps

  /** The grids a feed goes through. */
  ghost function Grids(g: Grid, input: bytes, at: nat): (gs: seq<Grid>)
    requires GridValid(g) && at <= |input| && (g.rows > 0 || PutsNoFeed(input, at))
    ensures gs != []
    decreases |input| - at
  {
    if at == |input| then [g]
    else
      var item := ItemAt(input, at);
      [g] + Grids(GridAfter(g, input, at, item), input, After(input, at, item))
  }

  ghost predicate StepByStep(gs: seq<Grid>) {
    forall i :: 0 <= i < |gs| - 1 ==> TapeStep(gs[i], gs[i + 1])
  }

  /** A feed starts at its grid, ends at its result, and is on the way a step of the window at a time. */
  lemma {:induction false} FeedIsSteps(g: Grid, input: bytes, at: nat)
    requires GridValid(g) && at <= |input| && (g.rows > 0 || PutsNoFeed(input, at))
    ensures var gs := Grids(g, input, at);
            gs[0] == g && gs[|gs| - 1] == FeedFrom(g, input, at).grid && StepByStep(gs)
    decreases |input| - at
  {
    hide GridValid, TapeStep, GridAfter, ItemAt, After, OscOf, PutsNoFeed, FeedFrom;
    if at == |input| {
      FeedEnds(g, input);
    } else {
      NextItem(g, input, at);
      ItemMovesTape(g, input, at);
      var item := ItemAt(input, at);
      var h, next := GridAfter(g, input, at, item), After(input, at, item);
      FeedIsSteps(h, input, next);
      var rest := Grids(h, input, next);
      assert Grids(g, input, at) == [g] + rest;
    }
  }

  /** A step evicts nothing, or the line at the top of the screen. */
  lemma StepEvicts(g: Grid, h: Grid)
    requires TapeStep(g, h)
    ensures h.evicted == g.evicted || (g.screen != [] && h.evicted == g.evicted + [g.screen[0]])
    ensures g.evicted <= h.evicted
  {
    if g.rows > 0 && Scrolls(g, h) {
      assert h.evicted == Tape(h)[..|g.evicted| + 1];
      assert Tape(h)[|g.evicted|] == g.screen[0];
    }
  }

  /** Some grid had the line at the top of its screen when n lines had been evicted. */
  ghost predicate WasTop(gs: seq<Grid>, n: nat, line: bytes) {
    exists i :: 0 <= i < |gs| && |gs[i].evicted| == n && gs[i].screen != [] && gs[i].screen[0] == line
  }

  lemma {:induction false} TopsAreEvicted(gs: seq<Grid>)
    requires gs != [] && StepByStep(gs)
    ensures var first, last := gs[0].evicted, gs[|gs| - 1].evicted;
            first <= last && forall n :: |first| <= n < |last| ==> WasTop(gs, n, last[n])
    decreases |gs|
  {
    hide TapeStep;
    if |gs| > 1 {
      var rest, last := gs[1..], gs[|gs| - 1].evicted;
      forall i | 0 <= i < |rest| - 1
        ensures TapeStep(rest[i], rest[i + 1])
      {
        assert rest[i] == gs[i + 1] && rest[i + 1] == gs[i + 2];
      }
      TopsAreEvicted(rest);
      assert TapeStep(gs[0], gs[1]);
      StepEvicts(gs[0], gs[1]);
      forall n | |gs[0].evicted| <= n < |last|
        ensures WasTop(gs, n, last[n])
      {
        if n < |gs[1].evicted| {
          assert gs[0].screen[0] == last[n];
        } else {
          assert WasTop(rest, n, last[n]);
          var i :| 0 <= i < |rest| && |rest[i].evicted| == n && rest[i].screen != [] && rest[i].screen[0] == last[n];
          assert gs[i + 1] == rest[i];
        }
      }
    }
  }

  /**
   * A feed is a run of steps, each of which adds one blank line at the end of the tape or changes it
   * on the screen alone; and the lines it evicts are, in order, those that stood at the top of the screen.
   */
  lemma FeedExtendsTape(g: Grid, input: bytes)
    requires GridValid(g) && (g.rows > 0 || PutsNoFeed(input, 0))
    ensures var gs, h := Grids(g, input, 0), FeedFrom(g, input, 0).grid;
            && gs[0] == g && gs[|gs| - 1] == h && StepByStep(gs)
            && GridValid(h) && h.rows == g.rows && h.columns == g.columns && g.evicted <= h.evicted
            && forall n :: |g.evicted| <= n < |h.evicted| ==> WasTop(gs, n, h.evicted[n])
  {
    hide TapeStep, GridValid, FeedFrom, Grids, PutsNoFeed;
    FeedIsSteps(g, input, 0);
    TopsAreEvicted(Grids(g, input, 0));
    FeedKeepsShape(g, input, 0);
  }

  // ----- what is above the cursor

  /** The control sequence neither places the cursor nor clears the screen, which J does for 2 alone. */
  predicate StaysBelow(parameters: bytes, final: byte) {
    final !in {UPPER_H, LOWER_F} && (final == UPPER_J ==> OneIfZero(Fields(parameters, 0)[0]) != 2)
  }

  /** No control sequence of the feed places the cursor or clears the screen. */
  predicate NeverUp(input: bytes, at: nat)
    requires at <= |input|
    decreases |input| - at
  {
    at < |input| ==>
      var item := ItemAt(input, at);
      && (item.Csi? ==> StaysBelow(input[at + 2..item.final], input[item.final]))
      && NeverUp(input, After(input, at, item))
  }

  /** The tape's line the cursor is on. */
  function CursorLine(g: Grid): nat {
    |g.evicted| + g.row
  }

  /** The cursor goes down the tape, and the lines above it stay. */
  ghost predicate Downward(g: Grid, h: Grid) {
    && CursorLine(g) <= CursorLine(h)
    && CursorLine(g) <= |Tape(g)| && CursorLine(g) <= |Tape(h)|
    && Tape(h)[..CursorLine(g)] == Tape(g)[..CursorLine(g)]
  }

  lemma PutDownward(g: Grid, b: byte)
    requires GridValid(g) && (g.rows > 0 || b != LF)
    ensures Downward(g, Put(g, b))
  {
    PutMovesTape(g, b);
    if b == LF && g.row + 1 >= g.rows {
      assert Tape(Put(g, b))[..CursorLine(g)] == Tape(g)[..CursorLine(g)];
    }
  }

  lemma CsiDownward(g: Grid, parameters: bytes, final: byte)
    requires GridValid(g) && StaysBelow(parameters, final)
    ensures Downward(g, HandleCsi(g, parameters, final))
  {
    hide Fields;
  }

  lemma DownwardTransitive(g: Grid, h: Grid, i: Grid)
    requires Downward(g, h) && Downward(h, i)
    ensures Downward(g, i)
  {
    assert Tape(i)[..CursorLine(g)] == Tape(i)[..CursorLine(h)][..CursorLine(g)];
    assert Tape(h)[..CursorLine(g)] == Tape(h)[..CursorLine(h)][..CursorLine(g)];
  }

  /** Without cursor motion or clearing, a feed leaves every line of the tape above the cursor as it was. */
  lemma {:induction false} LinesAboveStay(g: Grid, input: bytes, at: nat)
    requires GridValid(g) && at <= |input| && (g.rows > 0 || PutsNoFeed(input, at)) && NeverUp(input, at)
    ensures Downward(g, FeedFrom(g, input, at).grid)
    decreases |input| - at
  {
    hide GridValid, GridAfter, ItemAt, After, OscOf, PutsNoFeed, FeedFrom, Downward, Put, HandleCsi;
    StaysDownward(g);
    if at == |input| {
      FeedEnds(g, input);
    } else {
      NextItem(g, input, at);
      FeedsOf(g, input, at);
      var item := ItemAt(input, at);
      var h := GridAfter(g, input, at, item);
      if item.Byte? {
        PutDownward(g, input[at]);
      } else if item.Csi? {
        CsiDownward(g, input[at + 2..item.final], input[item.final]);
      }
      LinesAboveStay(h, input, After(input, at, item));
      DownwardTransitive(g, h, FeedFrom(g, input, at).grid);
    }
  }

  lemma StaysDownward(g: Grid)
    requires GridValid(g)
    ensures Downward(g, g)
  {
  }

  // ----- what is printed is on the tape

  /** A printed line as it stands on the screen: padded, or cut with its last byte in the last column. */
  function Rendered(line: bytes, columns: nat): bytes
    requires columns > 0
  {
    if |line| <= columns then line + Spaces(columns - |line|) else line[..columns - 1] + [line[|line| - 1]]
  }

  predicate Printable(line: bytes) {
    forall i :: 0 <= i < |line| ==> 0x20 <= line[i] < 0x80
  }

  function PutAll(g: Grid, input: bytes): Grid
    requires GridValid(g) && g.rows > 0
    decreases |input|
  {
    if input == [] then g
    else
      PutKeepsValid(g, input[0]);
      PutAll(Put(g, input[0]), input[1..])
  }

  /** Without an ESC a feed is just its bytes, put one after another. */
  lemma {:induction false} FeedPuts(g: Grid, input: bytes, at: nat)
    requires GridValid(g) && g.rows > 0 && at <= |input| && ESC !in input
    ensures FeedFrom(g, input, at).grid == PutAll(g, input[at..])
    decreases |input| - at
  {
    hide Put, GridValid, FeedFrom, GridAfter, ItemAt, After, OscOf;
    if at < |input| {
      assert input[at] in input;
      NextItem(g, input, at);
      ItemCases(input, at);
      FeedsOf(g, input, at);
      PutKeepsValid(g, input[at]);
      FeedPuts(Put(g, input[at]), input, at + 1);
      assert input[at..][1..] == input[at + 1..];
    } else {
      FeedEnds(g, input);
    }
  }

  lemma {:induction false} PutAllAppend(g: Grid, a: bytes, b: bytes)
    requires GridValid(g) && g.rows > 0
    ensures GridValid(PutAll(g, a)) && PutAll(g, a).rows == g.rows && PutAll(g, a).columns == g.columns
    ensures PutAll(g, a + b) == PutAll(PutAll(g, a), b)
    decreases |a|
  {
    hide Put, GridValid;
    if a == [] {
      assert a + b == b;
    } else {
      PutKeepsValid(g, a[0]);
      assert (a + b)[1..] == a[1..] + b;
      PutAllAppend(Put(g, a[0]), a[1..], b);
    }
  }

  /** Printing on a blank line from its first column renders the line there and touches nothing else. */
  lemma {:induction false} LineIsRendered(g: Grid, line: bytes)
    requires GridValid(g) && g.rows > 0 && g.columns > 0 && Printable(line)
    requires g.col == 0 && g.screen[g.row] == Spaces(g.columns)
    ensures PutAll(g, line)
         == g.(screen := g.screen[g.row := Rendered(line, g.columns)], col := Min(|line|, g.columns - 1))
    decreases |line|
  {
    hide Put, PutAll, GridValid;
    if line == [] {
      PutNothing(g);
      assert Rendered([], g.columns) == Spaces(g.columns);
      assert g.screen[g.row := g.screen[g.row]] == g.screen by { RowInScreen(g); }
    } else {
      var front, b := line[..|line| - 1], line[|line| - 1];
      assert line == front + [b];
      LineIsRendered(g, front);
      PutAllAppend(g, front, [b]);
      PutOne(PutAll(g, front), b);
      OneMoreByte(g, front, b);
    }
  }

  lemma RowInScreen(g: Grid)
    requires GridValid(g) && g.rows > 0
    ensures g.row < |g.screen|
  {
  }

  lemma PutNothing(g: Grid)
    requires GridValid(g) && g.rows > 0
    ensures PutAll(g, []) == g
  {
  }

  lemma PutOne(g: Grid, b: byte)
    requires GridValid(g) && g.rows > 0
    ensures PutAll(g, [b]) == Put(g, b)
  {
    PutKeepsValid(g, b);
    assert [b][1..] == [];
  }

  lemma OneMoreByte(g: Grid, front: bytes, b: byte)
    requires GridValid(g) && g.rows > 0 && g.columns > 0 && Printable(front + [b])
    requires g.screen[g.row] == Spaces(g.columns)
    ensures var h := g.(screen := g.screen[g.row := Rendered(front, g.columns)], col := Min(|front|, g.columns - 1));
            && GridValid(h)
            && Put(h, b) == g.(screen := g.screen[g.row := Rendered(front + [b], g.columns)],
                               col := Min(|front| + 1, g.columns - 1))
  {
    var h := g.(screen := g.screen[g.row := Rendered(front, g.columns)], col := Min(|front|, g.columns - 1));
    assert (front + [b])[|front|] == b;
    assert Written(h.screen[g.row], h.col, b) == Rendered(front + [b], g.columns);
    assert h.screen[g.row := Rendered(front + [b], g.columns)] == g.screen[g.row := Rendered(front + [b], g.columns)];
  }

  /** Each line followed by CR LF. */
  function Typed(lines: seq<bytes>): bytes {
    if lines == [] then [] else lines[0] + [CR, LF] + Typed(lines[1..])
  }

  /** The first k lines are on the tape, the cursor is at the start of the next one, and below is blank. */
  ghost predicate Shows(g: Grid, lines: seq<bytes>) {
    && GridValid(g) && g.rows > 0 && g.columns > 0 && g.col == 0
    && |g.evicted| + g.row == |lines|
    && (forall k :: 0 <= k < |lines| ==> Tape(g)[k] == Rendered(lines[k], g.columns))
    && (forall k :: |lines| <= k < |Tape(g)| ==> Tape(g)[k] == Spaces(g.columns))
  }

  lemma LineShown(g: Grid, lines: seq<bytes>, line: bytes)
    requires Shows(g, lines) && Printable(line)
    ensures Shows(PutAll(g, line + [CR, LF]), lines + [line])
    ensures PutAll(g, line + [CR, LF]).rows == g.rows && PutAll(g, line + [CR, LF]).columns == g.columns
  {
    hide PutAll;
    assert Tape(g)[|lines|] == g.screen[g.row];
    LineIsRendered(g, line);
    PutAllAppend(g, line, [CR, LF]);
    var h := PutAll(g, line);
    assert [CR, LF] == [CR] + [LF];
    PutAllAppend(h, [CR], [LF]);
    PutOne(h, CR);
    var r := Put(h, CR);
    PutKeepsValid(h, CR);
    PutOne(r, LF);
    PutMovesTape(r, LF);
    PutKeepsValid(r, LF);
    assert forall k :: 0 <= k < |Tape(g)| && k != |lines| ==> Tape(r)[k] == Tape(g)[k];
    assert Tape(r)[|lines|] == Rendered(line, g.columns);
  }

  lemma {:induction false} LinesShown(g: Grid, shown: seq<bytes>, lines: seq<bytes>)
    requires Shows(g, shown) && forall k :: 0 <= k < |lines| ==> Printable(lines[k])
    ensures Shows(PutAll(g, Typed(lines)), shown + lines)
    decreases |lines|
  {
    hide Shows, PutAll, Printable;
    if lines == [] {
      assert shown + lines == shown;
      ShownIsValid(g, shown);
      PutNothing(g);
    } else {
      var typed := lines[0] + [CR, LF];
      ShownIsValid(g, shown);
      LineShown(g, shown, lines[0]);
      ShownIsValid(PutAll(g, typed), shown + [lines[0]]);
      LinesShown(PutAll(g, typed), shown + [lines[0]], lines[1..]);
      assert shown + [lines[0]] + lines[1..] == shown + lines;
      PutAllAppend(g, typed, Typed(lines[1..]));
    }
  }

  lemma ShownIsValid(g: Grid, shown: seq<bytes>)
    requires Shows(g, shown)
    ensures GridValid(g) && g.rows > 0
  {
  }

  lemma {:induction false} TypedHasNoEscape(lines: seq<bytes>)
    requires forall k :: 0 <= k < |lines| ==> Printable(lines[k])
    ensures ESC !in Typed(lines)
  {
    if lines != [] {
      TypedHasNoEscape(lines[1..]);
      assert Printable(lines[0]);
    }
  }

  lemma NothingShown(rows: nat, columns: nat)
    requires rows > 0 && columns > 0
    ensures Shows(Grid(rows, columns, 0, 0, BlankScreen(rows, columns), []), [])
  {
  }

  /**
   * Feeding any list of printable lines to a fresh emulator puts exactly those lines, rendered, on
   * the tape, with the cursor at the start of the line after the last one.
   */
  lemma PrintedLinesAreOnTheTape(rows: nat, columns: nat, lines: seq<bytes>)
    requires rows > 0 && columns > 0 && forall k :: 0 <= k < |lines| ==> Printable(lines[k])
    ensures var g := Grid(rows, columns, 0, 0, BlankScreen(rows, columns), []);
            && GridValid(g)
            && Shows(FeedFrom(g, Typed(lines), 0).grid, lines)
  {
    var g := Grid(rows, columns, 0, 0, BlankScreen(rows, columns), []);
    hide PutAll, FeedFrom, Shows, Printable, Typed;
    NothingShown(rows, columns);
    ShownIsValid(g, []);
    LinesShown(g, [], lines);
    TypedHasNoEscape(lines);
    FeedPuts(g, Typed(lines), 0);
    assert [] + lines == lines && Typed(lines)[0..] == Typed(lines);
  }
}
