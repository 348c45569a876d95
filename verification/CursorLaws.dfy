/** Where the cursor motions land. */
module CursorLaws {
  import opened Bytes
  import opened Grapheme
  import opened Clusters
  import opened LineIndexes
  import opened TextBuffer
  import opened CursorMotion

  // ----- the length of a line

  /** Cutting before a line feed that a cluster has swallowed keeps the rest of that cluster whole. */
  lemma {:induction false} BreakFromCutAtFeed(tab: Table, text: bytes, offset: nat, scan: Scan, cut: nat)
    requires offset <= cut < |text| && text[cut] == LF && BreakFrom(tab, text, offset, scan) > cut
    ensures BreakFrom(tab, text[..cut], offset, scan) == cut
    decreases cut - offset
  {
    hide NextCodepoint, NoBreak, Advance;
    if offset < cut {
      CodepointBeforeAscii(text, offset, cut);
      CodepointTruncated(text, offset, cut);
      var c := NextCodepoint(text, offset);
      BreakFromCutAtFeed(tab, text, c.end, Advance(scan, tab(c.value)), cut);
    }
  }

  lemma NextBreakCutAtFeed(tab: Table, text: bytes, start: nat, cut: nat)
    requires start < cut < |text| && text[cut] == LF && NextBreak(tab, text, start) > cut
    ensures NextBreak(tab, text[..cut], start) == cut
  {
    hide NextCodepoint, NoBreak, BreakFrom;
    CodepointBeforeAscii(text, start, cut);
    CodepointTruncated(text, start, cut);
    var c := NextCodepoint(text, start);
    BreakFromCutAtFeed(tab, text, c.end, StartScan(tab(c.value)), cut);
  }

  /** A prefix that ends at a line feed has a cluster for every one that starts in it. */
  lemma {:induction false} CutAtFeedCount(tab: Table, text: bytes, start: nat, cut: nat)
    requires start <= cut < |text| && text[cut] == LF
    ensures CountTo(tab, text[..cut], start, cut) == CountTo(tab, text, start, cut)
    decreases cut - start
  {
    hide NextBreak;
    if start < cut {
      var e := NextBreak(tab, text, start);
      if e > cut {
        NextBreakCutAtFeed(tab, text, start, cut);
      } else {
        BreakBeforeFeed(tab, text, start, cut);
        CutAtFeedCount(tab, text, e, cut);
      }
    }
  }

  lemma BreakBeforeFeed(tab: Table, text: bytes, start: nat, cut: nat)
    requires start < cut < |text| && text[cut] == LF && NextBreak(tab, text, start) <= cut
    ensures NextBreak(tab, text[..cut], start) == NextBreak(tab, text, start)
  {
    hide NextCodepoint, BreakFrom;
    var e := NextBreak(tab, text, start);
    CodepointBeforeAscii(text, start, cut);
    CodepointTruncated(text, start, cut);
    var c := NextCodepoint(text, start);
    if e == cut {
      BreakFromTruncated(tab, text, c.end, StartScan(tab(c.value)), cut);
    } else {
      CodepointBeforeAscii(text, e, cut);
      BreakFromTruncatedLater(tab, text, c.end, StartScan(tab(c.value)), cut);
    }
  }

  /** The length of a line is the number of clusters of the text that start in it. */
  lemma LineLengthCounts(tab: Table, text: bytes, line: nat)
    requires line < |LineStarts(text)|
    ensures var start, end := LineStarts(text)[line], LineEnd(LineStarts(text), text, line);
            start <= end <= |text| && LineLength(tab, text, line) == CountTo(tab, text, start, end)
  {
    hide NextBreak, LineStarts, LineText, CountFrom, CountTo, OnChain;
    LineTextIsSlice(text, line);
    LineHasNoFeed(text, line);
    var start, end := LineStarts(text)[line], LineEnd(LineStarts(text), text, line);
    var front, rest := text[..start], text[start..end];
    assert text[..end] == front + rest;
    ChainSuffix(tab, front, rest, 0, |rest|);
    CountToEnd(tab, rest, 0);
    if end < |text| {
      CutAtFeedCount(tab, text, start, end);
    } else {
      assert text[..end] == text;
    }
  }

  // ----- left and right

  /** A cluster longer than its line feed takes the line feed in, as CR LF does. */
  predicate SwallowsFeed(text: bytes, b: nat, next: nat)
    requires b < next <= |text|
  {
    text[next - 1] == LF && b + 1 < next
  }

  /** The offset of a valid position, as the proofs below use it. */
  lemma OffsetFacts(tab: Table, text: bytes, p: Position)
    requires AsciiTable(tab) && ValidPosition(tab, text, p)
    ensures var b := OffsetOf(tab, text, p);
            var start, end := LineStarts(text)[p.line], LineEnd(LineStarts(text), text, p.line);
            && start <= b <= end <= |text| && OnChain(tab, text, start, b)
            && CountTo(tab, text, start, b) == p.col
  {
    hide NextBreak, LineStarts, OnChain, CountTo, Columns;
    LineHasNoFeed(text, p.line);
    var start, end := LineStarts(text)[p.line], LineEnd(LineStarts(text), text, p.line);
    WalkColumns(tab, text, start, end, p.col);
    WalkStarts(tab, text, start, end, p.col);
    ChainSelf(tab, text, start);
  }

  lemma ChainSelf(tab: Table, text: bytes, start: nat)
    ensures OnChain(tab, text, start, start)
    ensures start <= |text| ==> CountTo(tab, text, start, start) == 0
  {
  }

  lemma OffsetOfColumn(tab: Table, text: bytes, line: nat, b: nat, more: nat)
    requires line < |LineStarts(text)|
    requires OnChain(tab, text, LineStarts(text)[line], b) && b <= LineEnd(LineStarts(text), text, line) <= |text|
    ensures OffsetOf(tab, text, Pos(line, CountTo(tab, text, LineStarts(text)[line], b) + more))
         == Walk(tab, text, b, LineEnd(LineStarts(text), text, line), more)
  {
    hide NextBreak, LineStarts, OnChain, CountTo;
    var start, end := LineStarts(text)[line], LineEnd(LineStarts(text), text, line);
    WalkSplit(tab, text, start, b, end, more);
    ChainBounds(tab, text, start, b);
  }

  /**
   * Moving right goes to the next cluster boundary of the text and stops at its end; the new position
   * is that boundary's own, unless the cluster it passes swallows a line feed.
   */
  lemma RightIsNextBoundary(tab: Table, text: bytes, p: Position)
    requires AsciiTable(tab) && ValidPosition(tab, text, p)
    ensures var b, right := OffsetOf(tab, text, p), RightOf(tab, text, p);
            if b >= |text| then right == p
            else
              var next := NextBreak(tab, text, b);
              && OffsetOf(tab, text, right) == next
              && (right == PositionOf(tab, text, next) <==> !SwallowsFeed(text, b, next))
  {
    hide NextBreak, LineStarts, OnChain, CountTo, OffsetOf, PositionOf, ValidPosition, LineLength, AsciiTable;
    LineOfValid(tab, text, p);
    OffsetFacts(tab, text, p);
    LineHasNoFeed(text, p.line);
    LineLengthCounts(tab, text, p.line);
    var b, right := OffsetOf(tab, text, p), RightOf(tab, text, p);
    var starts := LineStarts(text);
    var start, end := starts[p.line], LineEnd(starts, text, p.line);
    if b < end {
      CountStrict(tab, text, start, b, end);
      OffsetOfColumn(tab, text, p.line, b, 1);
      WalkOne(tab, text, b, end);
      PositionUndoesOffset(tab, text, right);
      ValidAfter(tab, text, p.line, b);
      if end < |text| {
        NextBreakStopsAfterLineFeed(tab, text, b, end);
      }
    } else if b < |text| {
      NextBreakStopsAfterLineFeed(tab, text, b, b);
      StartOffset(tab, text, p.line + 1);
      PositionUndoesOffset(tab, text, right);
    }
  }

  lemma LineOfValid(tab: Table, text: bytes, p: Position)
    requires ValidPosition(tab, text, p)
    ensures p.line < |LineStarts(text)|
  {
  }

  lemma WalkOne(tab: Table, text: bytes, b: nat, end: nat)
    requires b < end
    ensures Walk(tab, text, b, end, 1) == NextBreak(tab, text, b)
  {
    hide NextBreak;
  }

  lemma StartOffset(tab: Table, text: bytes, line: nat)
    requires line < |LineStarts(text)|
    ensures OffsetOf(tab, text, Pos(line, 0)) == LineStarts(text)[line] && ValidPosition(tab, text, Pos(line, 0))
  {
    hide LineStarts, NextBreak;
    LineHasNoFeed(text, line);
  }

  /** The next column is valid exactly when its cluster ends on the line. */
  lemma ValidAfter(tab: Table, text: bytes, line: nat, b: nat)
    requires line < |LineStarts(text)| && LineStarts(text)[line] <= b < LineEnd(LineStarts(text), text, line) <= |text|
    requires OnChain(tab, text, LineStarts(text)[line], b)
    ensures ValidPosition(tab, text, Pos(line, CountTo(tab, text, LineStarts(text)[line], b) + 1))
       <==> NextBreak(tab, text, b) <= LineEnd(LineStarts(text), text, line)
  {
    hide NextBreak, LineStarts, OnChain, CountTo;
    var start, end := LineStarts(text)[line], LineEnd(LineStarts(text), text, line);
    WalkSplit(tab, text, start, b, end, 0);
  }

  /** Positions a cursor can be at: on a line, and no further than its length. */
  predicate InText(tab: Table, text: bytes, p: Position) {
    p.line < |LineStarts(text)| && p.col <= LineLength(tab, text, p.line)
  }

  /** Left undoes right except at the end of the text, and right undoes left except at its start. */
  lemma LeftUndoesRight(tab: Table, text: bytes, p: Position)
    requires InText(tab, text, p)
    ensures LeftOf(tab, text, RightOf(tab, text, p)) == p
       <==> p == Pos(0, 0) || p != Pos(|LineStarts(text)| - 1, LineLength(tab, text, |LineStarts(text)| - 1))
    ensures RightOf(tab, text, LeftOf(tab, text, p)) == p
       <==> p != Pos(0, 0) || Pos(0, 0) == Pos(|LineStarts(text)| - 1, LineLength(tab, text, |LineStarts(text)| - 1))
  {
    hide LineLength, LineStarts;
  }

  /** Moving left goes to the boundary before, unless a cluster that swallows a line feed lies between. */
  lemma LeftIsPriorBoundary(tab: Table, text: bytes, p: Position)
    requires AsciiTable(tab) && ValidPosition(tab, text, p) && p != Pos(0, 0)
    ensures var b, left := OffsetOf(tab, text, p), LeftOf(tab, text, p);
            && 0 < b <= |text|
            && var prior := Prior(tab, text, b);
               && NextBreak(tab, text, prior) == b
               && OffsetOf(tab, text, left) == if SwallowsFeed(text, prior, b) then b else prior
  {
    hide NextBreak, LineStarts, OnChain, CountTo, OffsetOf, ValidPosition, LineLength, AsciiTable, Prior;
    LineOfValid(tab, text, p);
    OffsetFacts(tab, text, p);
    OffsetOnChain(tab, text, p);
    LineHasNoFeed(text, p.line);
    LineStartsFacts(text);
    var b, left := OffsetOf(tab, text, p), LeftOf(tab, text, p);
    var starts := LineStarts(text);
    var start := starts[p.line];
    ChainSelf(tab, text, start);
    if p.col > 0 {
      assert start < b;
      LineStartsOnChain(tab, text, p.line);
      PriorFacts(tab, text, b);
      var prior := Prior(tab, text, b);
      PriorOnLine(tab, text, start, b);
      CountSplit(tab, text, start, prior, b);
      CountOne(tab, text, prior, b);
      OffsetOfColumn(tab, text, p.line, prior, 0);
    } else {
      ChainAtZero(tab, text, start, b);
      PriorFacts(tab, text, b);
      LeftOfStart(tab, text, p.line);
    }
  }

  lemma ChainAtZero(tab: Table, text: bytes, start: nat, b: nat)
    requires OnChain(tab, text, start, b) && b <= |text| && CountTo(tab, text, start, b) == 0
    ensures start == b
  {
    hide NextBreak;
    ChainBounds(tab, text, start, b);
  }

  lemma CountOne(tab: Table, text: bytes, a: nat, b: nat)
    requires a < b <= |text| && NextBreak(tab, text, a) == b
    ensures CountTo(tab, text, a, b) == 1
  {
    hide NextBreak;
  }

  /** The boundary before `b`. */
  lemma {:induction false} PriorFromFacts(tab: Table, text: bytes, at: nat, offset: nat)
    requires at < offset <= |text| && OnChain(tab, text, at, offset)
    ensures OnChain(tab, text, at, PriorFrom(tab, text, at, offset))
    ensures NextBreak(tab, text, PriorFrom(tab, text, at, offset)) == offset
    decreases offset - at
  {
    hide NextBreak;
    var next := NextBreak(tab, text, at);
    ChainBounds(tab, text, next, offset);
    if next < offset {
      PriorFromFacts(tab, text, next, offset);
    }
  }

  lemma PriorFacts(tab: Table, text: bytes, offset: nat)
    requires 0 < offset <= |text| && OnChain(tab, text, 0, offset)
    ensures OnChain(tab, text, 0, Prior(tab, text, offset))
    ensures NextBreak(tab, text, Prior(tab, text, offset)) == offset
  {
    hide NextBreak, OnChain;
    PriorFromFacts(tab, text, 0, offset);
  }

  /** Any boundary before `offset` is at or before the prior one. */
  lemma PriorOnLine(tab: Table, text: bytes, start: nat, offset: nat)
    requires start < offset <= |text| && OnChain(tab, text, 0, start) && OnChain(tab, text, 0, offset)
    ensures start <= Prior(tab, text, offset) && OnChain(tab, text, start, Prior(tab, text, offset))
  {
    hide NextBreak, Prior;
    PriorFacts(tab, text, offset);
    var prior := Prior(tab, text, offset);
    if prior < start {
      ChainSplit(tab, text, 0, prior, start);
      ChainBounds(tab, text, NextBreak(tab, text, prior), start);
    }
    ChainSplit(tab, text, 0, start, prior);
  }

  /** From the start of a line, left goes to the end of the line before. */
  lemma LeftOfStart(tab: Table, text: bytes, line: nat)
    requires AsciiTable(tab) && 0 < line < |LineStarts(text)| && 0 < LineStarts(text)[line] <= |text|
    requires OnChain(tab, text, 0, LineStarts(text)[line])
    ensures var b := LineStarts(text)[line];
            var prior := Prior(tab, text, b);
            OffsetOf(tab, text, Pos(line - 1, LineLength(tab, text, line - 1)))
            == if SwallowsFeed(text, prior, b) then b else prior
  {
    hide NextBreak, LineStarts, OnChain, CountTo, OffsetOf, LineLength, AsciiTable, Prior;
    var starts := LineStarts(text);
    var b, before := starts[line], line - 1;
    LineStartsFacts(text);
    LineHasNoFeed(text, before);
    LineLengthCounts(tab, text, before);
    LineStartsOnChain(tab, text, before);
    PriorFacts(tab, text, b);
    var start, end, prior := starts[before], LineEnd(starts, text, before), Prior(tab, text, b);
    PriorOnLine(tab, text, start, b);
    if prior < end {
      CountSplit(tab, text, start, prior, end);
      CountUpTo(tab, text, prior, end);
      OffsetOfColumn(tab, text, before, prior, 1);
      WalkOne(tab, text, prior, end);
    } else {
      OffsetOfColumn(tab, text, before, prior, 0);
      WalkNone(tab, text, prior, end);
    }
  }

  lemma CountUpTo(tab: Table, text: bytes, a: nat, b: nat)
    requires a < b <= |text| && NextBreak(tab, text, a) >= b
    ensures CountTo(tab, text, a, b) == 1
  {
    hide NextBreak;
  }

  lemma WalkNone(tab: Table, text: bytes, b: nat, end: nat)
    ensures Walk(tab, text, b, end, 0) == b
  {
  }

  // ----- every motion stays in the text

  lemma PositionInText(tab: Table, text: bytes, b: nat)
    requires b <= |text|
    ensures InText(tab, text, PositionOf(tab, text, b))
  {
    hide NextBreak, LineStarts, UpperBound, LineLength;
    var starts := LineStarts(text);
    UpperBoundPositive(starts, b);
    var line := UpperBound(starts, b) - 1;
    LineHasNoFeed(text, line);
    LineLengthCounts(tab, text, line);
    CountMonotone(tab, text, starts[line], b, LineEnd(starts, text, line));
  }

  lemma {:induction false} UpStays(text: bytes, line: nat)
    ensures UpOverEmpty(text, line) <= line && UpOverFull(text, line) <= line
  {
    hide LineText;
    if line > 0 {
      UpStays(text, line - 1);
    }
  }

  lemma {:induction false} DownStays(text: bytes, line: nat)
    requires line < |LineStarts(text)|
    ensures DownOverFull(text, line) < |LineStarts(text)| && DownOverEmpty(text, line) < |LineStarts(text)|
    decreases |LineStarts(text)| - line
  {
    hide LineText, LineStarts;
    if line + 1 < |LineStarts(text)| {
      DownStays(text, line + 1);
    }
  }

  /** No motion takes a cursor out of the text. */
  lemma MoveKeepsInText(tab: Table, text: bytes, c: Cursor, motion: Motion)
    requires InText(tab, text, c.position)
    ensures InText(tab, text, Target(tab, text, c, motion))
  {
    hide LineLength, LineStarts, LineText, PositionOf, OffsetOf, WordLeftOf, WordRightOf;
    hide UpOverFull, UpOverEmpty, DownOverFull, DownOverEmpty;
    OffsetBounded(tab, text, c.position);
    var b := OffsetOf(tab, text, c.position);
    PositionInText(tab, text, WordLeftOf(tab, text, b));
    PositionInText(tab, text, WordRightOf(tab, text, b));
    UpStays(text, c.position.line);
    UpStays(text, UpOverEmpty(text, c.position.line));
    DownStays(text, c.position.line);
    DownStays(text, DownOverFull(text, c.position.line));
  }

  function MovedBy(tab: Table, text: bytes, c: Cursor, motions: seq<(Motion, bool)>): Cursor
    decreases |motions|
  {
    if motions == [] then c
    else MovedBy(tab, text, Moved(tab, text, c, motions[0].0, motions[0].1), motions[1..])
  }

  /** Any run of motions leaves the cursor in the text, its preferred column that of its position. */
  lemma {:induction false} RunStaysInText(tab: Table, text: bytes, c: Cursor, motions: seq<(Motion, bool)>)
    requires InText(tab, text, c.position) && c.sticky == c.position.col
    ensures var moved := MovedBy(tab, text, c, motions);
            InText(tab, text, moved.position) && moved.sticky == moved.position.col
    decreases |motions|
  {
    hide InText, Target;
    if motions != [] {
      MoveKeepsInText(tab, text, c, motions[0].0);
      RunStaysInText(tab, text, Moved(tab, text, c, motions[0].0, motions[0].1), motions[1..]);
    }
  }

  /** A run of motions that extend leaves the selection where it starts; one that does not starts it anew. */
  lemma {:induction false} RunKeepsAnchor(tab: Table, text: bytes, c: Cursor, motions: seq<(Motion, bool)>)
    requires forall k :: 0 < k < |motions| ==> motions[k].1
    ensures MovedBy(tab, text, c, motions).anchor == if motions == [] || motions[0].1 then c.anchor else c.position
    decreases |motions|
  {
    hide Target;
    if motions != [] {
      var rest := motions[1..];
      assert forall k :: 0 <= k < |rest| ==> rest[k] == motions[k + 1];
      RunKeepsAnchor(tab, text, Moved(tab, text, c, motions[0].0, motions[0].1), rest);
    }
  }

  /** The end of the line, before its line feed, is a cluster boundary: it is not where the line ends in CR LF. */
  predicate EndsApart(tab: Table, text: bytes, line: nat)
    requires line < |LineStarts(text)|
  {
    LineHasNoFeed(text, line);
    OnChain(tab, text, LineStarts(text)[line], LineEnd(LineStarts(text), text, line))
  }

  /** The clusters that start on a line are those wholly on it, and one more where its end is inside a cluster. */
  lemma {:induction false} ColumnsCount(tab: Table, text: bytes, start: nat, end: nat)
    requires start <= end <= |text|
    ensures Columns(tab, text, start, end)
         == CountTo(tab, text, start, end) - if OnChain(tab, text, start, end) then 0 else 1
    decreases |text| - start
  {
    hide NextBreak;
    if start < end {
      var next := NextBreak(tab, text, start);
      if next <= end {
        ColumnsCount(tab, text, next, end);
      } else {
        ChainPast(tab, text, next, end);
      }
    }
  }

  /** The places a cursor can reach have an offset of their own, all but the end of a line that does not end apart. */
  lemma InTextIsValid(tab: Table, text: bytes, p: Position)
    ensures ValidPosition(tab, text, p)
       <==> InText(tab, text, p) && (p.col < LineLength(tab, text, p.line) || EndsApart(tab, text, p.line))
  {
    hide NextBreak, LineStarts, OnChain, CountTo, Columns, LineLength;
    if p.line < |LineStarts(text)| {
      LineHasNoFeed(text, p.line);
      LineLengthCounts(tab, text, p.line);
      ColumnsCount(tab, text, LineStarts(text)[p.line], LineEnd(LineStarts(text), text, p.line));
    }
  }

  // ----- up and down

  /** The column a cursor takes up on a line: the one it prefers, or the end of the line before that. */
  ghost predicate TakesColumn(tab: Table, text: bytes, p: Position, line: nat, sticky: nat) {
    && p.line == line && p.col <= sticky && p.col <= LineLength(tab, text, line)
    && (p.col == sticky || p.col == LineLength(tab, text, line))
  }

  /** Up and down go one line on, to the preferred column, and nowhere from the first and the last line. */
  lemma UpAndDownLand(tab: Table, text: bytes, c: Cursor)
    ensures var up := Target(tab, text, c, Up);
            if c.position.line == 0 then up == c.position
            else TakesColumn(tab, text, up, c.position.line - 1, c.sticky)
    ensures var down := Target(tab, text, c, Down);
            if c.position.line + 1 >= |LineStarts(text)| then down == c.position
            else TakesColumn(tab, text, down, c.position.line + 1, c.sticky)
  {
    hide LineLength, LineStarts;
  }

  /** The lines from..to are all empty, or none of them is. */
  ghost predicate Stretch(text: bytes, from: nat, to: nat, empty: bool) {
    forall k :: from <= k < to ==> ((LineText(text, k) == []) <==> empty)
  }

  lemma {:induction false} UpOverEmptyFacts(text: bytes, line: nat)
    ensures var m := UpOverEmpty(text, line);
            m <= line && Stretch(text, m + 1, line + 1, true) && (m == 0 || LineText(text, m) != [])
  {
    hide LineText;
    if line > 0 && LineText(text, line) == [] {
      UpOverEmptyFacts(text, line - 1);
    }
  }

  lemma {:induction false} UpOverFullFacts(text: bytes, line: nat)
    ensures var m := UpOverFull(text, line);
            m <= line && Stretch(text, m, line, false) && (m == 0 || LineText(text, m - 1) == [])
  {
    hide LineText;
    if line > 0 && LineText(text, line - 1) != [] {
      UpOverFullFacts(text, line - 1);
    }
  }

  lemma {:induction false} DownOverFullFacts(text: bytes, line: nat)
    requires line < |LineStarts(text)|
    ensures var m := DownOverFull(text, line);
            && line <= m < |LineStarts(text)| && Stretch(text, line + 1, m + 1, false)
            && (m + 1 == |LineStarts(text)| || LineText(text, m + 1) == [])
    decreases |LineStarts(text)| - line
  {
    hide LineText, LineStarts;
    if line + 1 < |LineStarts(text)| && LineText(text, line + 1) != [] {
      DownOverFullFacts(text, line + 1);
    }
  }

  lemma {:induction false} DownOverEmptyFacts(text: bytes, line: nat)
    requires line < |LineStarts(text)|
    ensures var m := DownOverEmpty(text, line);
            && line <= m < |LineStarts(text)| && Stretch(text, line, m, true)
            && (m + 1 == |LineStarts(text)| || LineText(text, m) != [])
    decreases |LineStarts(text)| - line
  {
    hide LineText, LineStarts;
    if line + 1 < |LineStarts(text)| && LineText(text, line) == [] {
      DownOverEmptyFacts(text, line + 1);
    }
  }

  /**
   * Paragraph-up passes the empty lines the cursor is on and then the lines with text before them, to
   * the start of the first of those.
   */
  lemma ParagraphUpLands(tab: Table, text: bytes, c: Cursor) returns (m: nat)
    ensures var p := Target(tab, text, c, ParagraphUp);
            && p.col == 0 && p.line <= m <= c.position.line
            && Stretch(text, m + 1, c.position.line + 1, true) && (m == 0 || LineText(text, m) != [])
            && Stretch(text, p.line, m, false) && (p.line == 0 || LineText(text, p.line - 1) == [])
  {
    hide LineText, LineStarts, Stretch;
    m := UpOverEmpty(text, c.position.line);
    UpOverEmptyFacts(text, c.position.line);
    UpOverFullFacts(text, m);
  }

  /**
   * Paragraph-down passes the lines with text below the cursor, to the last of them; if the line it is
   * then on is empty it goes on to the next line with text, or to the last line.
   */
  lemma ParagraphDownLands(tab: Table, text: bytes, c: Cursor) returns (m: nat)
    requires c.position.line < |LineStarts(text)|
    ensures var p, lines := Target(tab, text, c, ParagraphDown), |LineStarts(text)|;
            && p.col == 0 && c.position.line <= m <= p.line < lines
            && Stretch(text, c.position.line + 1, m + 1, false) && (m + 1 == lines || LineText(text, m + 1) == [])
            && Stretch(text, m, p.line, true) && (p.line + 1 == lines || LineText(text, p.line) != [])
  {
    hide LineText, LineStarts, Stretch;
    m := DownOverFull(text, c.position.line);
    DownOverFullFacts(text, c.position.line);
    DownOverEmptyFacts(text, m);
  }

  // ----- words

  /** Every cluster that starts in `from..to` starts with a word character, or none does. */
  ghost predicate Run(tab: Table, text: bytes, from: nat, to: nat, word: bool) {
    && from <= to <= |text| && OnChain(tab, text, from, to)
    && forall x :: from <= x < to && OnChain(tab, text, from, x) ==> IsWord(text[x]) == word
  }

  lemma {:induction false} SkipRunFacts(tab: Table, text: bytes, offset: nat, word: bool)
    requires offset <= |text|
    ensures var end := SkipRun(tab, text, offset, word);
            Run(tab, text, offset, end, word) && (end < |text| ==> IsWord(text[end]) != word)
    decreases |text| - offset
  {
    hide NextBreak, IsWord;
    if offset < |text| && IsWord(text[offset]) == word {
      var next := NextBreak(tab, text, offset);
      SkipRunFacts(tab, text, next, word);
      RunCons(tab, text, offset, SkipRun(tab, text, next, word), word);
    }
  }

  lemma RunCons(tab: Table, text: bytes, from: nat, to: nat, word: bool)
    requires from < |text| && IsWord(text[from]) == word && Run(tab, text, NextBreak(tab, text, from), to, word)
    ensures Run(tab, text, from, to, word)
  {
    hide NextBreak, IsWord;
    forall x | from <= x < to && OnChain(tab, text, from, x)
      ensures IsWord(text[x]) == word
    {
      if x != from {
        ChainBounds(tab, text, NextBreak(tab, text, from), x);
      }
    }
  }

  lemma RunSnoc(tab: Table, text: bytes, from: nat, to: nat, word: bool)
    requires to < |text| && IsWord(text[to]) == word && Run(tab, text, from, to, word)
    ensures Run(tab, text, from, NextBreak(tab, text, to), word)
  {
    hide NextBreak, IsWord;
    var next := NextBreak(tab, text, to);
    assert OnChain(tab, text, to, next);
    ChainCompose(tab, text, from, to, next);
    forall x | from <= x < next && OnChain(tab, text, from, x)
      ensures IsWord(text[x]) == word
    {
      if x > to {
        ChainSplit(tab, text, from, to, x);
        ChainBounds(tab, text, next, x);
      }
    }
  }

  /** A word starts at `a`: no word character starts the cluster before it. */
  ghost predicate WordBegins(tab: Table, text: bytes, a: nat) {
    a <= |text| && OnChain(tab, text, 0, a) && (a > 0 ==> !IsWord(text[Prior(tab, text, a)]))
  }

  /** Word-right leaves the word it is in, or goes to the next one. */
  lemma WordRightLands(tab: Table, text: bytes, offset: nat)
    requires offset <= |text|
    ensures var end, inside := WordRightOf(tab, text, offset), offset < |text| && IsWord(text[offset]);
            && Run(tab, text, offset, end, inside)
            && (end < |text| ==> IsWord(text[end]) == !inside)
  {
    hide NextBreak, IsWord, SkipRun;
    SkipRunFacts(tab, text, offset, true);
    SkipRunFacts(tab, text, offset, false);
  }

  lemma {:induction false} BackToWordFacts(tab: Table, text: bytes, offset: nat)
    requires offset <= |text| && OnChain(tab, text, 0, offset)
    ensures var to := BackToWord(tab, text, offset);
            && OnChain(tab, text, 0, to)
            && (Run(tab, text, to, offset, false)
                || (to < offset && IsWord(text[to]) && Run(tab, text, NextBreak(tab, text, to), offset, false)))
            && (Run(tab, text, to, offset, false) ==> to == 0)
  {
    hide NextBreak, IsWord, Prior, OnChain;
    ChainSelf(tab, text, offset);
    if offset > 0 {
      var prior := Prior(tab, text, offset);
      PriorFacts(tab, text, offset);
      if IsWord(text[prior]) {
        ChainSelf(tab, text, prior);
      } else {
        BackToWordFacts(tab, text, prior);
        var to := BackToWord(tab, text, prior);
        if Run(tab, text, to, prior, false) {
          RunSnoc(tab, text, to, prior, false);
        } else {
          RunSnoc(tab, text, NextBreak(tab, text, to), prior, false);
          ChainSelf(tab, text, to);
        }
      }
    }
  }

  lemma {:induction false} BackOverWordFacts(tab: Table, text: bytes, offset: nat)
    requires offset <= |text| && OnChain(tab, text, 0, offset)
    ensures var to := BackOverWord(tab, text, offset);
            WordBegins(tab, text, to) && Run(tab, text, to, offset, true)
  {
    hide NextBreak, IsWord, Prior, OnChain;
    ChainSelf(tab, text, offset);
    if offset > 0 && IsWord(text[Prior(tab, text, offset)]) {
      var prior := Prior(tab, text, offset);
      PriorFacts(tab, text, offset);
      BackOverWordFacts(tab, text, prior);
      RunSnoc(tab, text, BackOverWord(tab, text, prior), prior, true);
    }
  }

  /** Word-left goes to the start of the last word that starts before the cursor, or else of the text. */
  lemma WordLeftLands(tab: Table, text: bytes, offset: nat) returns (end: nat)
    requires offset <= |text| && OnChain(tab, text, 0, offset)
    ensures var to := WordLeftOf(tab, text, offset);
            && to <= end <= offset && WordBegins(tab, text, to)
            && Run(tab, text, to, end, true) && Run(tab, text, end, offset, false)
            && (to == end ==> to == 0)
  {
    hide NextBreak, IsWord, OnChain, BackOverWord, BackToWord, Run;
    BackToWordFacts(tab, text, offset);
    var last := BackToWord(tab, text, offset);
    BackOverWordFacts(tab, text, last);
    if Run(tab, text, last, offset, false) {
      end := last;
    } else {
      end := NextBreak(tab, text, last);
      RunSnoc(tab, text, WordLeftOf(tab, text, offset), last, true);
      RunBounds(tab, text, end, offset, false);
    }
  }

  lemma RunBounds(tab: Table, text: bytes, from: nat, to: nat, word: bool)
    requires Run(tab, text, from, to, word)
    ensures from <= to <= |text|
  {
  }

  lemma {:induction false} BackOverRun(tab: Table, text: bytes, from: nat, end: nat)
    requires WordBegins(tab, text, from) && Run(tab, text, from, end, true)
    ensures BackOverWord(tab, text, end) == from
    decreases end
  {
    hide NextBreak, IsWord, Prior, OnChain;
    if from != end {
      ChainCompose(tab, text, 0, from, end);
      PriorFacts(tab, text, end);
      PriorOnLine(tab, text, from, end);
      BackOverRun(tab, text, from, Prior(tab, text, end));
    }
  }

  /** From the start of a word, word-left undoes word-right. */
  lemma WordLeftUndoesWordRight(tab: Table, text: bytes, a: nat)
    requires a < |text| && WordBegins(tab, text, a) && IsWord(text[a])
    ensures a < WordRightOf(tab, text, a) && WordLeftOf(tab, text, WordRightOf(tab, text, a)) == a
  {
    hide NextBreak, IsWord, Prior, OnChain, SkipRun, BackOverWord;
    var end := WordRightOf(tab, text, a);
    WordRightLands(tab, text, a);
    assert end != a;
    ChainCompose(tab, text, 0, a, end);
    PriorFacts(tab, text, end);
    PriorOnLine(tab, text, a, end);
    var last := Prior(tab, text, end);
    assert BackToWord(tab, text, end) == last;
    BackOverRun(tab, text, a, last);
  }
}
