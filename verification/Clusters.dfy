/** Where clusters start and end inside a longer text: what the text engine relies on. */
module Clusters {
  import opened Bytes
  import Utf8
  import opened Grapheme

  /** How the table must classify the ASCII bytes. */
  ghost predicate AsciiTable(tab: Table) {
    forall c: uint32 :: c < 0x80 ==>
      tab(c) == if c == CR then Cr else if c == LF then Lf else if c < 0x20 || c == 0x7F then Control else Other
  }

  /** `b` is reached from `start` by repeated `next_break`. */
  predicate OnChain(tab: Table, text: bytes, start: nat, b: nat)
    decreases |text| - start
  {
    b == start || (start < b && start < |text| && OnChain(tab, text, NextBreak(tab, text, start), b))
  }

  /** How many clusters start in `start..stop`, counting from the cluster at `start`. */
  function CountTo(tab: Table, text: bytes, start: nat, stop: nat): nat
    requires stop <= |text|
    decreases |text| - start
  {
    if start >= stop then 0 else 1 + CountTo(tab, text, NextBreak(tab, text, start), stop)
  }

  // ----- the chain

  lemma {:induction false} ChainBounds(tab: Table, text: bytes, start: nat, b: nat)
    requires OnChain(tab, text, start, b)
    ensures start <= b
    ensures start <= |text| ==> b <= |text|
    decreases |text| - start
  {
    if b != start {
      ChainBounds(tab, text, NextBreak(tab, text, start), b);
    }
  }

  lemma {:induction false} ChainCompose(tab: Table, text: bytes, start: nat, m: nat, b: nat)
    requires OnChain(tab, text, start, m) && OnChain(tab, text, m, b)
    ensures OnChain(tab, text, start, b)
    decreases |text| - start
  {
    hide NextBreak;
    ChainBounds(tab, text, start, m);
    ChainBounds(tab, text, m, b);
    if m != start && b != start {
      ChainCompose(tab, text, NextBreak(tab, text, start), m, b);
    }
  }

  /** Two boundaries of one chain lie on one another's chain. */
  lemma {:induction false} ChainSplit(tab: Table, text: bytes, start: nat, m: nat, b: nat)
    requires OnChain(tab, text, start, m) && OnChain(tab, text, start, b) && m <= b
    ensures OnChain(tab, text, m, b)
    decreases |text| - start
  {
    hide NextBreak;
    ChainBounds(tab, text, start, m);
    if m != start {
      ChainSplit(tab, text, NextBreak(tab, text, start), m, b);
    }
  }

  lemma {:induction false} ChainToEnd(tab: Table, text: bytes, start: nat)
    requires start <= |text|
    ensures OnChain(tab, text, start, |text|)
    decreases |text| - start
  {
    hide NextBreak;
    if start < |text| {
      ChainToEnd(tab, text, NextBreak(tab, text, start));
    }
  }

  lemma {:induction false} CountSplit(tab: Table, text: bytes, start: nat, m: nat, b: nat)
    requires OnChain(tab, text, start, m) && m <= b <= |text|
    ensures CountTo(tab, text, start, b) == CountTo(tab, text, start, m) + CountTo(tab, text, m, b)
    decreases |text| - start
  {
    hide NextBreak;
    ChainBounds(tab, text, start, m);
    if m != start {
      CountSplit(tab, text, NextBreak(tab, text, start), m, b);
    }
  }

  lemma {:induction false} CountToEnd(tab: Table, text: bytes, start: nat)
    requires start <= |text|
    ensures CountTo(tab, text, start, |text|) == CountFrom(tab, text, start)
    decreases |text| - start
  {
    hide NextBreak;
    if start < |text| {
      CountToEnd(tab, text, NextBreak(tab, text, start));
    }
  }

  // ----- only the suffix matters

  lemma CodepointSuffix(front: bytes, rest: bytes, start: nat)
    requires start < |rest|
    ensures var c := NextCodepoint(rest, start);
            NextCodepoint(front + rest, |front| + start) == Codepoint(c.value, |front| + c.end)
  {
    hide NextCodepoint, Utf8.DecodeOneAt;
    NextCodepointAgrees(rest, start);
    NextCodepointAgrees(front + rest, |front| + start);
    Utf8.DecodeOneSuffix(front, rest, start);
  }

  lemma {:induction false} BreakFromSuffix(tab: Table, front: bytes, rest: bytes, offset: nat, scan: Scan)
    requires offset <= |rest|
    ensures BreakFrom(tab, front + rest, |front| + offset, scan) == |front| + BreakFrom(tab, rest, offset, scan)
    decreases |rest| - offset
  {
    hide NextCodepoint, NoBreak, Advance;
    if offset < |rest| {
      CodepointSuffix(front, rest, offset);
      var c := NextCodepoint(rest, offset);
      BreakFromSuffix(tab, front, rest, c.end, Advance(scan, tab(c.value)));
    }
  }

  /** `next_break` looks only at the text from `start` on. */
  lemma NextBreakSuffix(tab: Table, front: bytes, rest: bytes, start: nat)
    ensures NextBreak(tab, front + rest, |front| + start) == |front| + NextBreak(tab, rest, start)
  {
    hide NextCodepoint, BreakFrom;
    if start < |rest| {
      CodepointSuffix(front, rest, start);
      var c := NextCodepoint(rest, start);
      BreakFromSuffix(tab, front, rest, c.end, StartScan(tab(c.value)));
    }
  }

  lemma {:induction false} ChainSuffix(tab: Table, front: bytes, rest: bytes, start: nat, b: nat)
    ensures OnChain(tab, front + rest, |front| + start, |front| + b) == OnChain(tab, rest, start, b)
    ensures b <= |rest| ==>
              CountTo(tab, front + rest, |front| + start, |front| + b) == CountTo(tab, rest, start, b)
    decreases |rest| - start
  {
    hide NextBreak;
    if start < b && start < |rest| {
      NextBreakSuffix(tab, front, rest, start);
      ChainSuffix(tab, front, rest, NextBreak(tab, rest, start), b);
    }
  }

  // ----- cutting the text at a boundary

  lemma CodepointTruncated(text: bytes, start: nat, cut: nat)
    requires start < |text| && NextCodepoint(text, start).end <= cut <= |text|
    ensures NextCodepoint(text[..cut], start) == NextCodepoint(text, start)
  {
    hide NextCodepoint, Utf8.DecodeOneAt;
    NextCodepointAgrees(text, start);
    NextCodepointAgrees(text[..cut], start);
    Utf8.DecodeOneTruncated(text, start, cut);
  }

  lemma {:induction false} BreakFromTruncated(tab: Table, text: bytes, offset: nat, scan: Scan, cut: nat)
    requires offset <= |text| && BreakFrom(tab, text, offset, scan) == cut
    ensures BreakFrom(tab, text[..cut], offset, scan) == cut
    decreases |text| - offset
  {
    hide NextCodepoint, NoBreak;
    if offset < cut {
      var c := NextCodepoint(text, offset);
      CodepointTruncated(text, offset, cut);
      BreakFromTruncated(tab, text, c.end, Advance(scan, tab(c.value)), cut);
    }
  }

  lemma {:induction false} BreakFromTruncatedLater(tab: Table, text: bytes, offset: nat, scan: Scan, cut: nat)
    requires offset <= |text| && BreakFrom(tab, text, offset, scan) < cut <= |text|
    requires NextCodepoint(text, BreakFrom(tab, text, offset, scan)).end <= cut
    ensures BreakFrom(tab, text[..cut], offset, scan) == BreakFrom(tab, text, offset, scan)
    decreases |text| - offset
  {
    hide NextCodepoint, NoBreak;
    var c := NextCodepoint(text, offset);
    if BreakFrom(tab, text, offset, scan) != offset {
      CodepointTruncated(text, offset, cut);
      BreakFromTruncatedLater(tab, text, c.end, Advance(scan, tab(c.value)), cut);
    } else {
      CodepointTruncated(text, offset, cut);
    }
  }

  lemma FirstCodepointInCluster(tab: Table, text: bytes, start: nat)
    requires start < |text|
    ensures NextCodepoint(text, start).end <= NextBreak(tab, text, start)
  {
    hide NextCodepoint;
  }

  /** Cutting the text at a later boundary does not move earlier ones. */
  lemma NextBreakTruncated(tab: Table, text: bytes, start: nat, cut: nat)
    requires start < cut <= |text| && OnChain(tab, text, start, cut)
    ensures NextBreak(tab, text[..cut], start) == NextBreak(tab, text, start)
  {
    hide NextCodepoint, BreakFrom;
    var e := NextBreak(tab, text, start);
    ChainBounds(tab, text, e, cut);
    FirstCodepointInCluster(tab, text, start);
    CodepointTruncated(text, start, cut);
    var c := NextCodepoint(text, start);
    var scan := StartScan(tab(c.value));
    if e == cut {
      BreakFromTruncated(tab, text, c.end, scan, cut);
    } else {
      FirstCodepointInCluster(tab, text, e);
      ChainBounds(tab, text, NextBreak(tab, text, e), cut);
      BreakFromTruncatedLater(tab, text, c.end, scan, cut);
    }
  }

  lemma {:induction false} ChainTruncated(tab: Table, text: bytes, start: nat, b: nat, cut: nat)
    requires start <= b <= cut <= |text| && OnChain(tab, text, start, cut)
    ensures OnChain(tab, text[..cut], start, b) == OnChain(tab, text, start, b)
    ensures CountTo(tab, text[..cut], start, b) == CountTo(tab, text, start, b)
    decreases |text| - start
  {
    hide NextBreak;
    if start < b {
      NextBreakTruncated(tab, text, start, cut);
      var e := NextBreak(tab, text, start);
      if e <= b {
        ChainTruncated(tab, text, e, b, cut);
      } else {
        ChainPast(tab, text, e, b);
        ChainPast(tab, text[..cut], e, b);
      }
    }
  }

  lemma ChainPast(tab: Table, text: bytes, start: nat, b: nat)
    requires start > b
    ensures !OnChain(tab, text, start, b)
    ensures b <= |text| ==> CountTo(tab, text, start, b) == 0
  {
  }

  lemma {:induction false} CountMonotone(tab: Table, text: bytes, start: nat, a: nat, b: nat)
    requires a <= b <= |text|
    ensures CountTo(tab, text, start, a) <= CountTo(tab, text, start, b)
    decreases |text| - start
  {
    hide NextBreak;
    if start < a {
      CountMonotone(tab, text, NextBreak(tab, text, start), a, b);
    }
  }

  lemma CountStrict(tab: Table, text: bytes, start: nat, a: nat, b: nat)
    requires OnChain(tab, text, start, a) && a < b <= |text|
    ensures CountTo(tab, text, start, a) < CountTo(tab, text, start, b)
  {
    hide NextBreak, OnChain;
    CountSplit(tab, text, start, a, b);
  }

  /** Cutting the text inside a cluster, after a code point, moves no boundary before the cut's cluster. */
  lemma {:induction false} ChainCutInside(tab: Table, text: bytes, start: nat, m: nat, cut: nat)
    requires OnChain(tab, text, start, m) && m < cut <= |text| && NextCodepoint(text, m).end <= cut
    ensures OnChain(tab, text[..cut], start, m)
    ensures CountTo(tab, text[..cut], start, m) == CountTo(tab, text, start, m)
    decreases |text| - start
  {
    hide NextCodepoint, BreakFrom;
    ChainBounds(tab, text, start, m);
    if start < m {
      var e := NextBreak(tab, text, start);
      ChainBounds(tab, text, e, m);
      FirstCodepointInCluster(tab, text, start);
      CodepointTruncated(text, start, cut);
      var c := NextCodepoint(text, start);
      if e < m {
        FirstCodepointInCluster(tab, text, e);
        ChainBounds(tab, text, NextBreak(tab, text, e), m);
      }
      BreakFromTruncatedLater(tab, text, c.end, StartScan(tab(c.value)), cut);
      ChainCutInside(tab, text, e, m, cut);
    }
  }

  /** A slice between boundaries has, on its own, the clusters it has in the text. */
  lemma SliceCount(tab: Table, text: bytes, a: nat, e: nat)
    requires a <= e <= |text| && OnChain(tab, text, a, e)
    ensures CountFrom(tab, text[a..e], 0) == CountTo(tab, text, a, e)
  {
    hide NextBreak, OnChain, CountTo, CountFrom;
    ChainTruncated(tab, text, a, e, e);
    var front, rest := text[..a], text[a..e];
    assert text[..e] == front + rest;
    ChainSuffix(tab, front, rest, 0, |rest|);
    CountToEnd(tab, rest, 0);
  }

  // ----- ASCII

  /** No code point runs across an ASCII byte. */
  lemma CodepointBeforeAscii(text: bytes, start: nat, i: nat)
    requires start <= i < |text| && text[i] < 0x80
    ensures var c := NextCodepoint(text, start);
            if start == i then c == Codepoint(text[i], i + 1) else c.end <= i
  {
    hide NextCodepoint, Utf8.EncodeOne, Utf8.Accumulate, Utf8.LeadOf;
    NextCodepointAgrees(text, start);
    Utf8.DecodeOneSound(text, start);
    var d := Utf8.DecodeOneAt(text, start);
    if d.consumed > 1 {
      Utf8.EncodeOneHigh(d.value);
      assert forall j :: start <= j < start + d.consumed ==>
          text[j] == text[start..start + d.consumed][j - start] >= 0x80;
    }
  }

  lemma {:induction false} BreakFromStopsAfterLineFeed(tab: Table, text: bytes, offset: nat, scan: Scan, i: nat)
    requires AsciiTable(tab) && offset <= i < |text| && text[i] == LF
    ensures BreakFrom(tab, text, offset, scan) <= i + 1
    decreases |text| - offset
  {
    hide NextCodepoint;
    CodepointBeforeAscii(text, offset, i);
    var c := NextCodepoint(text, offset);
    if offset < i {
      BreakFromStopsAfterLineFeed(tab, text, c.end, Advance(scan, tab(c.value)), i);
    } else if c.end < |text| {
      var next := Advance(scan, tab(c.value));
      assert BreakFrom(tab, text, c.end, next) == c.end;
    }
  }

  /** A line feed ends its cluster. */
  lemma NextBreakStopsAfterLineFeed(tab: Table, text: bytes, start: nat, i: nat)
    requires AsciiTable(tab) && start <= i < |text| && text[i] == LF
    ensures NextBreak(tab, text, start) <= i + 1
  {
    hide NextCodepoint;
    CodepointBeforeAscii(text, start, i);
    var c := NextCodepoint(text, start);
    if start < i {
      BreakFromStopsAfterLineFeed(tab, text, c.end, StartScan(tab(c.value)), i);
    }
  }

  /** Every chain that starts on a line goes through the start of the next line. */
  lemma {:induction false} ChainThroughLineStart(tab: Table, text: bytes, start: nat, i: nat)
    requires AsciiTable(tab) && start <= i < |text| && text[i] == LF
    ensures OnChain(tab, text, start, i + 1)
    decreases |text| - start
  {
    hide NextBreak;
    NextBreakStopsAfterLineFeed(tab, text, start, i);
    var e := NextBreak(tab, text, start);
    if e <= i {
      ChainThroughLineStart(tab, text, e, i);
    }
  }

  lemma {:induction false} BreakFromStopsBeforeCarriageReturn(tab: Table, text: bytes, offset: nat, scan: Scan, i: nat)
    requires AsciiTable(tab) && offset <= i < |text| && text[i] == CR
    ensures BreakFrom(tab, text, offset, scan) <= i
    decreases |text| - offset
  {
    hide NextCodepoint;
    CodepointBeforeAscii(text, offset, i);
    if offset < i {
      var c := NextCodepoint(text, offset);
      BreakFromStopsBeforeCarriageReturn(tab, text, c.end, Advance(scan, tab(c.value)), i);
    }
  }

  lemma {:induction false} ChainThroughCarriageReturn(tab: Table, text: bytes, start: nat, i: nat)
    requires AsciiTable(tab) && start <= i < |text| && text[i] == CR
    ensures OnChain(tab, text, start, i)
    decreases |text| - start
  {
    hide NextCodepoint;
    if start < i {
      CodepointBeforeAscii(text, start, i);
      var c := NextCodepoint(text, start);
      BreakFromStopsBeforeCarriageReturn(tab, text, c.end, StartScan(tab(c.value)), i);
      ChainThroughCarriageReturn(tab, text, NextBreak(tab, text, start), i);
    }
  }

  /** CR LF is one cluster. */
  lemma CrLfBreak(tab: Table, text: bytes, i: nat)
    requires AsciiTable(tab) && i + 1 < |text| && text[i] == CR && text[i + 1] == LF
    ensures NextBreak(tab, text, i) == i + 2
  {
    hide NextCodepoint;
    CodepointBeforeAscii(text, i, i);
    CodepointBeforeAscii(text, i + 1, i + 1);
    var scan := StartScan(Cr);
    assert BreakFrom(tab, text, i + 1, scan) == BreakFrom(tab, text, i + 2, Advance(scan, Lf));
  }

  lemma AsciiBreak(tab: Table, text: bytes, start: nat)
    requires AsciiTable(tab) && start < |text|
    requires text[start] < 0x80 && text[start] != CR
    requires start + 1 < |text| ==> text[start + 1] < 0x80
    ensures NextBreak(tab, text, start) == start + 1
  {
    hide NextCodepoint;
    CodepointBeforeAscii(text, start, start);
    if start + 1 < |text| {
      CodepointBeforeAscii(text, start + 1, start + 1);
      assert BreakFrom(tab, text, start + 1, StartScan(tab(text[start]))) == start + 1;
    }
  }

  // ----- bytes that never join

  predicate Over(alphabet: set<byte>, text: bytes) {
    forall i :: 0 <= i < |text| ==> text[i] in alphabet
  }

  /** No text over the alphabet holds CR LF or the encoding of a code point of more than one byte. */
  ghost predicate NeverJoin(alphabet: set<byte>) {
    && !(CR in alphabet && LF in alphabet)
    && forall c: uint32 :: Utf8.IsScalar(c) && c >= 0x80 ==> !Over(alphabet, Utf8.EncodeOne(c))
  }

  /** The table classifies whatever single byte a text over the alphabet can hold as the shipped one does. */
  ghost predicate Suits(tab: Table, alphabet: set<byte>) {
    AsciiTable(tab) && ((exists b :: b in alphabet && b >= 0x80) ==> tab(Utf8.REPLACEMENT) == Other)
  }

  /** Every byte of every text over the alphabet is a cluster. */
  ghost predicate Plain(tab: Table, alphabet: set<byte>) {
    Suits(tab, alphabet) && NeverJoin(alphabet)
  }

  lemma PlainCodepoint(tab: Table, alphabet: set<byte>, text: bytes, i: nat)
    requires Plain(tab, alphabet) && Over(alphabet, text) && i < |text|
    ensures NextCodepoint(text, i).end == i + 1
    ensures tab(NextCodepoint(text, i).value) == if text[i] < 0x80 then tab(text[i]) else Other
  {
    hide NextCodepoint, Utf8.EncodeOne, Utf8.DecodeOneAt;
    if text[i] < 0x80 {
      CodepointBeforeAscii(text, i, i);
    } else {
      NextCodepointAgrees(text, i);
      Utf8.DecodeOneSound(text, i);
      var d := Utf8.DecodeOneAt(text, i);
      var e := text[i..i + d.consumed];
      assert Over(alphabet, e);
      Utf8.OneByteEncoding(d.value);
      assert e[0] == text[i];
    }
  }

  lemma PlainBreak(tab: Table, alphabet: set<byte>, text: bytes, start: nat)
    requires Plain(tab, alphabet) && Over(alphabet, text) && start < |text|
    ensures NextBreak(tab, text, start) == start + 1
  {
    hide NextCodepoint, Plain, Over;
    PlainCodepoint(tab, alphabet, text, start);
    if start + 1 < |text| {
      PlainCodepoint(tab, alphabet, text, start + 1);
      PlainPair(tab, alphabet, text, start);
      var scan := StartScan(tab(NextCodepoint(text, start).value));
      assert BreakFrom(tab, text, start + 1, scan) == start + 1;
    }
  }

  lemma PlainPair(tab: Table, alphabet: set<byte>, text: bytes, i: nat)
    requires Plain(tab, alphabet) && Over(alphabet, text) && i + 1 < |text|
    ensures AsciiTable(tab) && !(text[i] == CR && text[i + 1] == LF)
  {
  }

  lemma {:induction false} PlainChain(tab: Table, alphabet: set<byte>, text: bytes, start: nat, b: nat)
    requires Plain(tab, alphabet) && Over(alphabet, text) && start <= b <= |text|
    ensures OnChain(tab, text, start, b) && CountTo(tab, text, start, b) == b - start
    decreases b - start
  {
    hide NextBreak, Plain, Over;
    if start < b {
      PlainBreak(tab, alphabet, text, start);
      PlainChain(tab, alphabet, text, start + 1, b);
    }
  }

  function BytesOf(text: bytes): set<byte> {
    set b <- text
  }

  /** Without the bytes that can lead an encoding, and CR and LF not both there, bytes never join. */
  lemma NoLeadsNeverJoin(alphabet: set<byte>)
    requires forall b <- alphabet :: !(0xC2 <= b <= 0xF4)
    ensures NeverJoin(alphabet) <==> !(CR in alphabet && LF in alphabet)
  {
    hide Utf8.EncodeOne;
    forall c: uint32 | Utf8.IsScalar(c) && c >= 0x80
      ensures !Over(alphabet, Utf8.EncodeOne(c))
    {
      Utf8.EncodingLeads(c);
    }
  }
}
