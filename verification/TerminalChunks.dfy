/** When cutting the emulator's input between two feeds changes nothing. */
module TerminalChunks {
  import opened Bytes
  import opened Terminals

  /** The scan of the input leaves no sequence unfinished, and does not end in a bare ESC. */
  predicate Settled(input: bytes, at: nat)
    requires at <= |input|
    decreases |input| - at
  {
    at < |input| ==>
      var item := ItemAt(input, at);
      && item != Unfinished
      && !(input[at] == ESC && at + 1 == |input|)
      && Settled(input, After(input, at, item))
  }

  /** The emulator can be fed input[at..]: a line feed is put only where there is a row. */
  predicate Feedable(g: Grid, input: bytes, at: nat)
    requires at <= |input|
  {
    g.rows > 0 || PutsNoFeed(input, at)
  }

  /** Two feeds, one after the other. */
  function FedTwice(g: Grid, a: bytes, at: nat, b: bytes): Fed
    requires GridValid(g) && at <= |a| && Feedable(g, a, at) && Feedable(g, b, 0)
  {
    FeedKeepsShape(g, a, at);
    var first := FeedFrom(g, a, at);
    var second := FeedFrom(first.grid, b, 0);
    Fed(second.grid, first.osc + second.osc)
  }

  // ----- looking further does not change what was found

  lemma {:induction false} FinalInLonger(a: bytes, b: bytes, from: nat)
    requires from <= |a|
    ensures FindFinal(a, from) < |a| ==> FindFinal(a + b, from) == FindFinal(a, from)
    decreases |a| - from
  {
    if from < |a| {
      FinalInLonger(a, b, from + 1);
    }
  }

  lemma {:induction false} BellInLonger(a: bytes, b: bytes, from: nat)
    requires from <= |a|
    ensures FindByte(a, BEL, from) < |a| ==> FindByte(a + b, BEL, from) == FindByte(a, BEL, from)
    ensures FindByte(a, BEL, from) == |a| ==> FindByte(a + b, BEL, from) >= |a|
    decreases |a| - from
  {
    if from < |a| {
      BellInLonger(a, b, from + 1);
    }
  }

  /** A terminator may turn up late, but only across the end. */
  lemma {:induction false} TerminatorInLonger(a: bytes, b: bytes, from: nat)
    requires from <= |a|
    ensures FindTerminator(a, from) < |a| ==> FindTerminator(a + b, from) == FindTerminator(a, from)
    ensures FindTerminator(a, from) == |a| ==>
              || FindTerminator(a + b, from) >= |a|
              || (FindTerminator(a + b, from) == |a| - 1 && a[|a| - 1] == ESC && b != [] && b[0] == BACKSLASH)
    decreases |a| - from
  {
    if from < |a| {
      TerminatorInLonger(a, b, from + 1);
    }
  }

  /** An item that is finished stays the same item when more input follows. */
  lemma ItemInLonger(a: bytes, b: bytes, at: nat)
    requires at < |a| && ItemAt(a, at) != Unfinished && !(a[at] == ESC && at + 1 == |a|)
    ensures ItemAt(a + b, at) == ItemAt(a, at)
    ensures After(a + b, at, ItemAt(a + b, at)) == After(a, at, ItemAt(a, at))
  {
    hide FindFinal, FindByte, FindTerminator, ItemAt, After;
    ItemCases(a, at);
    ItemCases(a + b, at);
    if at + 2 <= |a| {
      FinalInLonger(a, b, at + 2);
      BellInLonger(a, b, at + 2);
      TerminatorInLonger(a, b, at + 2);
    }
  }

  lemma SameItemSameEffect(g: Grid, a: bytes, b: bytes, at: nat)
    requires GridValid(g) && at < |a| && (g.rows > 0 || (ItemAt(a, at).Byte? ==> a[at] != LF))
    requires ItemAt(a, at) != Unfinished && ItemAt(a + b, at) == ItemAt(a, at)
    ensures GridAfter(g, a + b, at, ItemAt(a + b, at)) == GridAfter(g, a, at, ItemAt(a, at))
    ensures OscOf(a + b, at, ItemAt(a + b, at)) == OscOf(a, at, ItemAt(a, at))
  {
    hide GridValid, ItemAt, Put, HandleCsi, OscParts;
    var item := ItemAt(a, at);
    if item.Csi? {
      assert (a + b)[at + 2..item.final] == a[at + 2..item.final];
    } else if item.Osc? {
      assert (a + b)[at + 2..item.end] == a[at + 2..item.end];
    }
  }

  // ----- looking from a later start

  lemma {:induction false} FinalInSuffix(front: bytes, rest: bytes, from: nat)
    requires from <= |rest|
    ensures FindFinal(front + rest, |front| + from) == |front| + FindFinal(rest, from)
    decreases |rest| - from
  {
    if from < |rest| {
      FinalInSuffix(front, rest, from + 1);
    }
  }

  lemma {:induction false} BellInSuffix(front: bytes, rest: bytes, from: nat)
    requires from <= |rest|
    ensures FindByte(front + rest, BEL, |front| + from) == |front| + FindByte(rest, BEL, from)
    decreases |rest| - from
  {
    if from < |rest| {
      BellInSuffix(front, rest, from + 1);
    }
  }

  lemma {:induction false} TerminatorInSuffix(front: bytes, rest: bytes, from: nat)
    requires from <= |rest|
    ensures FindTerminator(front + rest, |front| + from) == |front| + FindTerminator(rest, from)
    decreases |rest| - from
  {
    if from < |rest| {
      TerminatorInSuffix(front, rest, from + 1);
    }
  }

  function Shifted(item: Item, n: nat): Item {
    match item
    case Csi(final) => Csi(final + n)
    case Osc(end) => Osc(end + n)
    case _ => item
  }

  lemma IntroducesInSuffix(front: bytes, rest: bytes, at: nat, letter: byte)
    requires at < |rest|
    ensures Introduces(front + rest, |front| + at, letter) == Introduces(rest, at, letter)
    ensures Introduces(rest, at, letter) ==> at + 2 <= |rest|
  {
  }

  lemma ItemInSuffix(front: bytes, rest: bytes, at: nat)
    requires at < |rest|
    ensures ItemAt(front + rest, |front| + at) == Shifted(ItemAt(rest, at), |front|)
  {
    hide FindFinal, FindByte, FindTerminator, Introduces;
    IntroducesInSuffix(front, rest, at, LEFT_BRACKET);
    IntroducesInSuffix(front, rest, at, RIGHT_BRACKET);
    if at + 2 <= |rest| {
      FinalInSuffix(front, rest, at + 2);
      BellInSuffix(front, rest, at + 2);
      TerminatorInSuffix(front, rest, at + 2);
    }
  }

  lemma AfterInSuffix(front: bytes, rest: bytes, at: nat)
    requires at < |rest| && ItemAt(front + rest, |front| + at) == Shifted(ItemAt(rest, at), |front|)
    ensures After(front + rest, |front| + at, ItemAt(front + rest, |front| + at))
         == |front| + After(rest, at, ItemAt(rest, at))
  {
    hide ItemAt;
  }

  lemma SuffixSameEffect(g: Grid, front: bytes, rest: bytes, at: nat)
    requires GridValid(g) && at < |rest| && (g.rows > 0 || (ItemAt(rest, at).Byte? ==> rest[at] != LF))
    requires ItemAt(front + rest, |front| + at) == Shifted(ItemAt(rest, at), |front|)
    ensures GridAfter(g, front + rest, |front| + at, ItemAt(front + rest, |front| + at))
         == GridAfter(g, rest, at, ItemAt(rest, at))
    ensures OscOf(front + rest, |front| + at, ItemAt(front + rest, |front| + at)) == OscOf(rest, at, ItemAt(rest, at))
  {
    hide GridValid, ItemAt, Put, HandleCsi, OscParts;
    var item, n := ItemAt(rest, at), |front|;
    if item.Csi? {
      assert (front + rest)[n + at + 2..n + item.final] == rest[at + 2..item.final];
    } else if item.Osc? {
      assert (front + rest)[n + at + 2..n + item.end] == rest[at + 2..item.end];
    }
  }

  lemma {:induction false} NoFeedOfSuffix(front: bytes, rest: bytes, at: nat)
    requires at <= |rest|
    ensures PutsNoFeed(front + rest, |front| + at) == PutsNoFeed(rest, at)
    decreases |rest| - at
  {
    hide ItemAt, After;
    if at < |rest| {
      ItemInSuffix(front, rest, at);
      AfterInSuffix(front, rest, at);
      NoFeedOfSuffix(front, rest, After(rest, at, ItemAt(rest, at)));
    }
  }

  /** A feed depends only on the input from where it starts. */
  lemma {:induction false} FeedOfSuffix(g: Grid, front: bytes, rest: bytes, at: nat)
    requires GridValid(g) && at <= |rest| && Feedable(g, rest, at)
    ensures Feedable(g, front + rest, |front| + at)
    ensures FeedFrom(g, front + rest, |front| + at) == FeedFrom(g, rest, at)
    decreases |rest| - at
  {
    hide GridValid, GridAfter, ItemAt, After, OscOf, FeedFrom, Shifted, PutsNoFeed;
    NoFeedOfSuffix(front, rest, at);
    if at == |rest| {
      FeedEnds(g, rest);
      FeedEnds(g, front + rest);
    } else {
      NextItem(g, rest, at);
      NextItem(g, front + rest, |front| + at);
      ItemInSuffix(front, rest, at);
      AfterInSuffix(front, rest, at);
      SuffixSameEffect(g, front, rest, at);
      var item := ItemAt(rest, at);
      FeedOfSuffix(GridAfter(g, rest, at, item), front, rest, After(rest, at, item));
    }
  }

  // ----- both directions

  /** An item that is finished can be put after as before the cut. */
  lemma NoFeedStep(a: bytes, at: nat, b: bytes)
    requires at < |a| && ItemAt(a, at) != Unfinished && !(a[at] == ESC && at + 1 == |a|)
    ensures var next := After(a, at, ItemAt(a, at));
            && (PutsNoFeed(a, at) <==> (ItemAt(a, at).Byte? ==> a[at] != LF) && PutsNoFeed(a, next))
            && (PutsNoFeed(a + b, at) <==> (ItemAt(a, at).Byte? ==> a[at] != LF) && PutsNoFeed(a + b, next))
  {
    hide ItemAt, After;
    ItemInLonger(a, b, at);
  }

  lemma {:induction false} NoFeedWhenSettled(a: bytes, at: nat, b: bytes)
    requires at <= |a| && Settled(a, at)
    ensures PutsNoFeed(a + b, at) <==> PutsNoFeed(a, at) && PutsNoFeed(b, 0)
    decreases |a| - at
  {
    hide ItemAt, After, PutsNoFeed;
    if at == |a| {
      NoFeedOfSuffix(a, b, 0);
      NothingPut(a);
    } else {
      NoFeedStep(a, at, b);
      NoFeedWhenSettled(a, After(a, at, ItemAt(a, at)), b);
    }
  }

  lemma NoFeedFrom(a: bytes, at: nat)
    requires at < |a|
    ensures PutsNoFeed(a, at)
       <==> (ItemAt(a, at).Byte? ==> a[at] != LF) && PutsNoFeed(a, After(a, at, ItemAt(a, at)))
  {
  }

  lemma NothingPut(a: bytes)
    ensures PutsNoFeed(a, |a|)
  {
  }

  /** One item more in front of both ways of feeding. */
  lemma BothWaysStep(g: Grid, a: bytes, at: nat, b: bytes)
    requires GridValid(g) && at < |a| && Feedable(g, a, at) && Feedable(g, a + b, at) && Feedable(g, b, 0)
    requires ItemAt(a, at) != Unfinished && !(a[at] == ESC && at + 1 == |a|)
    ensures var item := ItemAt(a, at);
            var next := After(a, at, item);
            && (g.rows > 0 || (item.Byte? ==> a[at] != LF))
            && Feedable(g, a, next) && Feedable(g, a + b, next)
            && var h, osc := GridAfter(g, a, at, item), OscOf(a, at, item);
            var whole, twice := FeedFrom(h, a + b, next), FedTwice(h, a, next, b);
            && FeedFrom(g, a + b, at) == Fed(whole.grid, osc + whole.osc)
            && FedTwice(g, a, at, b) == Fed(twice.grid, osc + twice.osc)
  {
    hide GridValid, GridAfter, ItemAt, After, OscOf, FeedFrom, PutsNoFeed;
    NoFeedStep(a, at, b);
    NextItem(g, a, at);
    NextItem(g, a + b, at);
    ItemInLonger(a, b, at);
    SameItemSameEffect(g, a, b, at);
    var item := ItemAt(a, at);
    var h, next := GridAfter(g, a, at, item), After(a, at, item);
    FeedKeepsShape(h, a, next);
    var first := FeedFrom(h, a, next);
    var second := FeedFrom(first.grid, b, 0);
    assert (OscOf(a, at, item) + first.osc) + second.osc == OscOf(a, at, item) + (first.osc + second.osc);
  }

  /** After a settled input, the next feed goes on as if there had been no cut. */
  lemma {:induction false} SettledFeedsOn(g: Grid, a: bytes, at: nat, b: bytes)
    requires GridValid(g) && at <= |a| && Settled(a, at) && Feedable(g, a, at) && Feedable(g, b, 0)
    ensures Feedable(g, a + b, at)
    ensures FeedFrom(g, a + b, at) == FedTwice(g, a, at, b)
    decreases |a| - at
  {
    hide GridValid, GridAfter, ItemAt, After, OscOf, FeedFrom, PutsNoFeed;
    NoFeedWhenSettled(a, at, b);
    if at == |a| {
      FeedEnds(g, a);
      FeedOfSuffix(g, a, b, 0);
      assert [] + FeedFrom(g, b, 0).osc == FeedFrom(g, b, 0).osc;
    } else {
      hide FedTwice;
      BothWaysStep(g, a, at, b);
      NextItem(g, a, at);
      var item := ItemAt(a, at);
      SettledFeedsOn(GridAfter(g, a, at, item), a, After(a, at, item), b);
    }
  }

  /** After any other input, some next feed behaves differently: it reports another number of OSC strings. */
  lemma {:induction false} UnsettledBreaks(g: Grid, a: bytes, at: nat) returns (b: bytes)
    requires GridValid(g) && at <= |a| && !Settled(a, at) && Feedable(g, a, at)
    ensures Feedable(g, a + b, at) && Feedable(g, b, 0)
    ensures |FeedFrom(g, a + b, at).osc| != |FedTwice(g, a, at, b).osc|
    decreases |a| - at
  {
    hide GridValid, GridAfter, ItemAt, After, OscOf, FeedFrom, FedTwice, PutsNoFeed;
    if a[at] == ESC && at + 1 == |a| {
      b := [RIGHT_BRACKET, BEL];
      TrailingEscape(g, a, at);
    } else if ItemAt(a, at) == Unfinished {
      ItemCases(a, at);
      if Introduces(a, at, LEFT_BRACKET) {
        b := [ESC, RIGHT_BRACKET, BEL];
        UnfinishedCsi(g, a, at);
      } else {
        b := [BEL];
        UnfinishedOsc(g, a, at);
      }
    } else {
      NextItem(g, a, at);
      var item := ItemAt(a, at);
      b := UnsettledBreaks(GridAfter(g, a, at, item), a, After(a, at, item));
      NoFeedStep(a, at, b);
      BothWaysStep(g, a, at, b);
    }
  }

  lemma NoFeedInOsc()
    ensures PutsNoFeed([ESC, RIGHT_BRACKET, BEL], 0) && PutsNoFeed([RIGHT_BRACKET, BEL], 0) && PutsNoFeed([BEL], 0)
  {
    var x, y: bytes := [ESC, RIGHT_BRACKET, BEL], [RIGHT_BRACKET, BEL];
    assert FindByte(x, BEL, 2) == 2 && FindTerminator(x, 2) == 3;
    assert ItemAt(x, 0) == Osc(2) && After(x, 0, Osc(2)) == 3;
    assert PutsNoFeed(y, 1);
  }

  lemma OscFeed(g: Grid)
    requires GridValid(g)
    ensures PutsNoFeed([ESC, RIGHT_BRACKET, BEL], 0) && PutsNoFeed([RIGHT_BRACKET, BEL], 0) && PutsNoFeed([BEL], 0)
    ensures |FeedFrom(g, [ESC, RIGHT_BRACKET, BEL], 0).osc| == 1
    ensures FeedFrom(g, [RIGHT_BRACKET, BEL], 0).osc == []
    ensures FeedFrom(g, [BEL], 0).osc == []
  {
    hide GridValid, GridAfter, OscParts, FeedFrom, PutsNoFeed;
    NoFeedInOsc();
    var x, y, z: bytes := [ESC, RIGHT_BRACKET, BEL], [RIGHT_BRACKET, BEL], [BEL];
    assert FindByte(x, BEL, 2) == 2 && FindTerminator(x, 2) == 3;
    assert ItemAt(x, 0) == Osc(2) && After(x, 0, Osc(2)) == 3;
    NextItem(g, x, 0);
    FeedsOf(g, x, 0);
    FeedEnds(g, x);
    assert ItemAt(z, 0) == Byte;
    NextItem(g, z, 0);
    FeedEnds(GridAfter(g, z, 0, Byte), z);
    assert ItemAt(y, 0) == Byte && ItemAt(y, 1) == Byte;
    NextItem(g, y, 0);
    var h := GridAfter(g, y, 0, Byte);
    NextItem(h, y, 1);
    FeedEnds(GridAfter(h, y, 1, Byte), y);
  }

  /** The feed that breaks off reports nothing; the other one reports one string when it is whole. */
  lemma TrailingEscape(g: Grid, a: bytes, at: nat)
    requires GridValid(g) && at + 1 == |a| && a[at] == ESC && Feedable(g, a, at)
    ensures Feedable(g, a + [RIGHT_BRACKET, BEL], at) && Feedable(g, [RIGHT_BRACKET, BEL], 0)
    ensures |FeedFrom(g, a + [RIGHT_BRACKET, BEL], at).osc| == 1
    ensures |FedTwice(g, a, at, [RIGHT_BRACKET, BEL]).osc| == 0
  {
    hide GridValid, GridAfter, OscParts, FeedFrom, PutsNoFeed;
    NoFeedInOsc();
    assert a + [RIGHT_BRACKET, BEL] == a[..at] + [ESC, RIGHT_BRACKET, BEL];
    FeedOfSuffix(g, a[..at], [ESC, RIGHT_BRACKET, BEL], 0);
    OscFeed(g);
    NextItem(g, a, at);
    FeedsOf(g, a, at);
    var h := GridAfter(g, a, at, Byte);
    FeedEnds(h, a);
    OscFeed(h);
  }

  lemma UnfinishedCsi(g: Grid, a: bytes, at: nat)
    requires GridValid(g) && at < |a| && Feedable(g, a, at)
    requires Introduces(a, at, LEFT_BRACKET) && FindFinal(a, at + 2) == |a| && ItemAt(a, at) == Unfinished
    ensures Feedable(g, a + [ESC, RIGHT_BRACKET, BEL], at) && Feedable(g, [ESC, RIGHT_BRACKET, BEL], 0)
    ensures |FeedFrom(g, a + [ESC, RIGHT_BRACKET, BEL], at).osc| == 0
    ensures |FedTwice(g, a, at, [ESC, RIGHT_BRACKET, BEL]).osc| == 1
  {
    hide GridValid, GridAfter, OscParts, FeedFrom, HandleCsi, FindFinal, PutsNoFeed;
    var b: bytes := [ESC, RIGHT_BRACKET, BEL];
    var whole := a + b;
    FinalAcross(a, b, at + 2);
    FinalNext(b);
    ItemCases(whole, at);
    assert whole == (a + [ESC, RIGHT_BRACKET]) + [BEL];
    NoFeedInOsc();
    NoFeedOfSuffix(a + [ESC, RIGHT_BRACKET], [BEL], 0);
    NoFeedFrom(whole, at);
    NextItem(g, whole, at);
    FeedsOf(g, whole, at);
    var h := GridAfter(g, whole, at, Csi(|a| + 1));
    FeedOfSuffix(h, a + [ESC, RIGHT_BRACKET], [BEL], 0);
    OscFeed(h);
    NextItem(g, a, at);
    FeedsOf(g, a, at);
    FeedEnds(g, a);
    OscFeed(g);
  }

  lemma {:induction false} FinalAcross(a: bytes, b: bytes, from: nat)
    requires from <= |a| && FindFinal(a, from) == |a|
    ensures FindFinal(a + b, from) == |a| + FindFinal(b, 0)
    decreases |a| - from
  {
    if from < |a| {
      FinalAcross(a, b, from + 1);
    } else {
      FinalInSuffix(a, b, 0);
    }
  }

  lemma FinalNext(b: bytes)
    requires b == [ESC, RIGHT_BRACKET, BEL]
    ensures FindFinal(b, 0) == 1
  {
    assert FindFinal(b, 1) == 1;
  }

  lemma UnfinishedOsc(g: Grid, a: bytes, at: nat)
    requires GridValid(g) && at < |a| && ItemAt(a, at) == Unfinished && Feedable(g, a, at)
    requires Introduces(a, at, RIGHT_BRACKET)
    ensures Feedable(g, a + [BEL], at) && Feedable(g, [BEL], 0)
    ensures |FeedFrom(g, a + [BEL], at).osc| == 1
    ensures |FedTwice(g, a, at, [BEL]).osc| == 0
  {
    hide GridValid, GridAfter, OscParts, FeedFrom, FindByte, FindTerminator, PutsNoFeed, ItemAt, After, OscOf;
    var whole := a + [BEL];
    BellInLonger(a, [BEL], at + 2);
    TerminatorInLonger(a, [BEL], at + 2);
    ItemCases(a, at);
    assert whole[|a|] == BEL;
    ItemCases(whole, at);
    NothingPut(whole);
    NoFeedInOsc();
    NoFeedFrom(whole, at);
    NextItem(g, whole, at);
    FeedsOf(g, whole, at);
    FeedEnds(g, whole);
    NextItem(g, a, at);
    FeedsOf(g, a, at);
    FeedEnds(g, a);
    OscFeed(g);
  }

  /**
   * Cutting the input after `a` is harmless, whatever follows, exactly when `a` leaves no sequence
   * unfinished and does not end in a bare ESC. The grid plays no part in it, but that one without rows
   * is fed no line feed.
   */
  lemma CutIsHarmless(g: Grid, a: bytes)
    requires GridValid(g) && Feedable(g, a, 0)
    ensures (forall b: bytes :: Feedable(g, b, 0) && Feedable(g, a + b, 0) ==>
               FeedFrom(g, a + b, 0) == FedTwice(g, a, 0, b)) <==> Settled(a, 0)
  {
    hide FeedFrom, FedTwice, Settled, GridValid, PutsNoFeed;
    if Settled(a, 0) {
      forall b: bytes | Feedable(g, b, 0) && Feedable(g, a + b, 0)
        ensures FeedFrom(g, a + b, 0) == FedTwice(g, a, 0, b)
      {
        SettledFeedsOn(g, a, 0, b);
      }
    } else {
      var b := UnsettledBreaks(g, a, 0);
    }
  }

  /** A cut that is not: the cursor never moves, and the final byte is printed. */
  lemma SplitEscapeIsLost(g: Grid)
    requires GridValid(g) && g.rows > 0
    ensures FeedFrom(g, [ESC, LEFT_BRACKET, UPPER_H], 0).grid == g.(row := 0, col := 0)
    ensures FedTwice(g, [ESC, LEFT_BRACKET], 0, [UPPER_H]).grid == Put(g, UPPER_H)
  {
    hide GridValid, GridAfter, FeedFrom, Put, Fields;
    var whole, a, b: bytes := [ESC, LEFT_BRACKET, UPPER_H], [ESC, LEFT_BRACKET], [UPPER_H];
    assert FindFinal(whole, 2) == 2 && whole[2..2] == [];
    NextItem(g, whole, 0);
    FeedsOf(g, whole, 0);
    NoFields();
    FeedEnds(g.(row := 0, col := 0), whole);
    assert FindFinal(a, 2) == 2;
    NextItem(g, a, 0);
    FeedsOf(g, a, 0);
    FeedEnds(g, a);
    NextItem(g, b, 0);
    FeedsOf(g, b, 0);
    FeedEnds(Put(g, UPPER_H), b);
  }

  lemma NoFields()
    ensures Fields([], 0) == [0]
  {
  }
}
