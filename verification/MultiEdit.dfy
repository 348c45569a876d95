/**
 * Edits at many places of one text: `Replacer` of TTyUtils-Search and `CursorSet::insert_each` of
 * TTyUtils-TextCursor. Both compute every position in the original text and then edit from the
 * right end to the left; over bytes that never join into a cluster, and only there, that amounts to
 * one simultaneous splice.
 */
module MultiEdit {
  import opened Bytes
  import Utf8
  import opened Grapheme
  import opened Clusters
  import opened LineIndexes
  import opened TextBuffer
  import opened Search

  // ----- positions in plain text depend only on what is before them

  lemma {:induction false} LineStartsPrefix(s: bytes, t: bytes, b: nat)
    requires b <= |s| && b <= |t| && s[..b] == t[..b]
    ensures LineStartsUpTo(s, b) == LineStartsUpTo(t, b)
  {
    if b > 0 {
      assert s[..b - 1] == s[..b][..b - 1] && t[..b - 1] == t[..b][..b - 1];
      assert s[b - 1] == s[..b][b - 1] && t[b - 1] == t[..b][b - 1];
      LineStartsPrefix(s, t, b - 1);
    }
  }

  lemma {:induction false} LineOf(text: bytes, b: nat, n: nat)
    requires b <= n <= |text|
    ensures LineStartsUpTo(text, b) <= LineStartsUpTo(text, n)
    ensures UpperBound(LineStartsUpTo(text, n), b) == |LineStartsUpTo(text, b)|
    decreases n
  {
    LineStartsIncreasing(text, b);
    var starts := LineStartsUpTo(text, n);
    if n == b {
      assert starts[|starts| - 1] <= b;
    } else {
      LineOf(text, b, n - 1);
      if text[n - 1] == LF {
        assert starts[..|starts| - 1] == LineStartsUpTo(text, n - 1);
      } else {
        assert starts == LineStartsUpTo(text, n - 1);
      }
    }
  }

  /** In plain text a position is the number of line feeds before it and the bytes since the last one. */
  lemma PlainPosition(tab: Table, alphabet: set<byte>, text: bytes, b: nat)
    requires Plain(tab, alphabet) && Over(alphabet, text) && b <= |text|
    ensures var starts := LineStartsUpTo(text, b);
            && starts[|starts| - 1] <= b
            && PositionOf(tab, text, b) == Pos(|starts| - 1, b - starts[|starts| - 1])
  {
    hide NextBreak, UpperBound, LineStartsUpTo;
    LineOf(text, b, |text|);
    LineStartsIncreasing(text, b);
    var starts := LineStartsUpTo(text, b);
    assert LineStarts(text)[|starts| - 1] == starts[|starts| - 1];
    PlainChain(tab, alphabet, text, starts[|starts| - 1], b);
  }

  /** A position computed in one plain text finds the same offset in another that agrees up to there. */
  lemma OffsetInOther(tab: Table, alphabet: set<byte>, text: bytes, other: bytes, b: nat)
    requires Plain(tab, alphabet) && Over(alphabet, text) && Over(alphabet, other)
    requires b <= |text| && b <= |other| && text[..b] == other[..b]
    ensures OffsetOf(tab, other, PositionOf(tab, text, b)) == b
  {
    hide PositionOf, OffsetOf, NextBreak, OnChain;
    PlainPosition(tab, alphabet, text, b);
    PlainPosition(tab, alphabet, other, b);
    LineStartsPrefix(text, other, b);
    PlainChain(tab, alphabet, other, 0, b);
    OffsetUndoesPosition(tab, other, b);
  }

  lemma PrefixOfPrefix(text: bytes, other: bytes, b: nat, e: nat)
    requires b <= e <= |text| && e <= |other| && text[..e] == other[..e]
    ensures text[..b] == other[..b]
  {
    assert text[..b] == text[..e][..b] && other[..b] == other[..e][..b];
  }

  /** One insertion at a position of the original text. */
  lemma InsertAtOriginal(tab: Table, alphabet: set<byte>, text: bytes, current: bytes, b: nat, value: bytes)
    requires Plain(tab, alphabet) && Over(alphabet, text) && Over(alphabet, current)
    requires b <= |text| && b <= |current| && text[..b] == current[..b]
    ensures Inserted(tab, current, PositionOf(tab, text, b), value) == current[..b] + value + current[b..]
  {
    hide PositionOf, OffsetOf;
    OffsetInOther(tab, alphabet, text, current, b);
  }

  /** One replacement between two positions of the original text. */
  lemma ReplaceAtOriginal(tab: Table, alphabet: set<byte>, text: bytes, current: bytes, b: nat, e: nat, value: bytes)
    requires Plain(tab, alphabet) && Over(alphabet, text) && Over(alphabet, current)
    requires b <= e <= |text| && e <= |current| && text[..e] == current[..e]
    ensures Replaced(tab, current, PositionOf(tab, text, b), PositionOf(tab, text, e), value)
         == current[..b] + value + current[e..]
  {
    hide PositionOf, OffsetOf, Inserted;
    PrefixOfPrefix(text, current, b, e);
    OffsetInOther(tab, alphabet, text, current, b);
    OffsetInOther(tab, alphabet, text, current, e);
    var erased := Erased(tab, current, PositionOf(tab, text, b), PositionOf(tab, text, e));
    assert erased == current[..b] + current[e..];
    assert erased[..b] == current[..b] && erased[b..] == current[e..];
    InsertAtOriginal(tab, alphabet, text, erased, b, value);
  }

  // ----- Replacer

  /** The loop of `confirm_each`: the matches, last first. */
  function ReplaceBackwards(tab: Table, text: bytes, matches: seq<Match>, confirm: Match -> bool, value: bytes): bytes
    decreases |matches|
  {
    if matches == [] then text
    else
      var last := matches[|matches| - 1];
      var next := if confirm(last) then Replaced(tab, text, last.begin, last.end, value) else text;
      ReplaceBackwards(tab, next, matches[..|matches| - 1], confirm, value)
  }

  function CountConfirmed(matches: seq<Match>, confirm: Match -> bool): nat {
    if matches == [] then 0
    else CountConfirmed(matches[1..], confirm) + (if confirm(matches[0]) then 1 else 0)
  }

  lemma {:induction false} CountSnoc(matches: seq<Match>, m: Match, confirm: Match -> bool)
    ensures CountConfirmed(matches + [m], confirm) == CountConfirmed(matches, confirm) + if confirm(m) then 1 else 0
  {
    if matches != [] {
      assert (matches + [m])[1..] == matches[1..] + [m];
      CountSnoc(matches[1..], m, confirm);
    }
  }

  /** The count is that of the matches confirmed. */
  lemma {:induction false} ConfirmedAre(matches: seq<Match>, confirm: Match -> bool, n: nat)
    requires n <= |matches|
    ensures CountConfirmed(matches[..n], confirm) == |set k: nat | k < n && confirm(matches[k])|
  {
    hide CountConfirmed;
    var all := set k: nat | k < n && confirm(matches[k]);
    if n == 0 {
      NothingConfirmed(matches[..0], confirm);
      assert all == {};
    } else {
      var before := set k: nat | k < n - 1 && confirm(matches[k]);
      ConfirmedAre(matches, confirm, n - 1);
      CountSnoc(matches[..n - 1], matches[n - 1], confirm);
      assert matches[..n] == matches[..n - 1] + [matches[n - 1]];
      assert all == if confirm(matches[n - 1]) then before + {n - 1} else before;
    }
  }

  lemma NothingConfirmed(matches: seq<Match>, confirm: Match -> bool)
    requires matches == []
    ensures CountConfirmed(matches, confirm) == 0
  {
  }

  class Replacer {
    const buffer: Buffer
    const query: Query
    const replacement: bytes

    constructor (buffer: Buffer, query: Query, replacement: bytes)
      ensures this.buffer == buffer && this.query == query && this.replacement == replacement
    {
      this.buffer := buffer;
      this.query := query;
      this.replacement := replacement;
    }

    /** `confirm_each`; the callback's answers are a function of the match it is asked about. */
    method ConfirmEach(confirm: Match -> bool) returns (applied: nat)
      requires buffer.Valid()
      modifies buffer, buffer.cell
      ensures buffer.Valid()
      ensures var matches := LocatedAll(buffer.tab, old(buffer.Text()), Hits(buffer.tab, query, old(buffer.Text())));
              && buffer.Text() == ReplaceBackwards(buffer.tab, old(buffer.Text()), matches, confirm, replacement)
              && applied == CountConfirmed(matches, confirm)
    {
      hide Replaced, LocatedAll, Hits;
      var matches := FindAll(buffer.tab, buffer.Text(), query);
      applied := 0;
      assert matches[..|matches|] == matches;
      var k := |matches|;
      while k > 0
        invariant 0 <= k <= |matches| && buffer.Valid()
        invariant buffer.cell == old(buffer.cell) || fresh(buffer.cell)
        invariant ReplaceBackwards(buffer.tab, buffer.Text(), matches[..k], confirm, replacement)
               == ReplaceBackwards(buffer.tab, old(buffer.Text()), matches, confirm, replacement)
        invariant applied == CountConfirmed(matches[k..], confirm)
      {
        k := k - 1;
        var m := matches[k];
        assert matches[..k + 1][..k] == matches[..k] && matches[..k + 1][k] == m;
        assert matches[k..][1..] == matches[k + 1..];
        if confirm(m) {
          buffer.Replace(m.begin, m.end, replacement);
          applied := applied + 1;
        }
      }
      assert matches[0..] == matches;
    }

    method ReplaceAll() returns (applied: nat)
      requires buffer.Valid()
      modifies buffer, buffer.cell
      ensures buffer.Valid()
      ensures var matches := LocatedAll(buffer.tab, old(buffer.Text()), Hits(buffer.tab, query, old(buffer.Text())));
              && buffer.Text() == ReplaceBackwards(buffer.tab, old(buffer.Text()), matches, _ => true, replacement)
              && applied == |matches|
    {
      applied := ConfirmEach(_ => true);
      AllConfirmed(LocatedAll(buffer.tab, old(buffer.Text()), Hits(buffer.tab, query, old(buffer.Text()))));
    }
  }

  lemma AllConfirmed(matches: seq<Match>)
    ensures CountConfirmed(matches, _ => true) == |matches|
  {
  }

  /** text[..to] with every confirmed hit replaced, all at once. */
  function SpliceHits(tab: Table, text: bytes, hits: seq<Hit>, confirm: Match -> bool, value: bytes, to: nat): bytes
    requires to <= |text|
    requires forall i :: 0 <= i < |hits| ==> hits[i].begin <= hits[i].end <= to
    requires forall i, j :: 0 <= i < j < |hits| ==> hits[i].end <= hits[j].begin
    decreases |hits|
  {
    if hits == [] then text[..to]
    else
      var last := hits[|hits| - 1];
      SpliceHits(tab, text, hits[..|hits| - 1], confirm, value, last.begin)
      + (if confirm(Located(tab, text, last)) then value else text[last.begin..last.end]) + text[last.end..to]
  }

  /** The text after the last hit has been dealt with, before and from the hit's begin. */
  lemma AfterLastHit(text: bytes, current: bytes, b: nat, e: nat, m: nat, value: bytes)
    requires b <= e <= m <= |text| && m <= |current| && text[..m] == current[..m]
    ensures current[..b] == text[..b]
    ensures current[b..] == text[b..e] + text[e..m] + current[m..]
    ensures var next := current[..b] + value + current[e..];
            next[..b] == text[..b] && next[b..] == value + text[e..m] + current[m..]
  {
    PrefixOfPrefix(text, current, b, m);
    TailAgrees(text, current, e, m);
    TailAgrees(text, current, b, m);
    assert text[b..m] == text[b..e] + text[e..m];
    StartOfSplice(current[..b], value, current[e..]);
  }

  lemma TailAgrees(text: bytes, current: bytes, e: nat, m: nat)
    requires e <= m <= |text| && m <= |current| && text[..m] == current[..m]
    ensures current[e..] == text[e..m] + current[m..]
  {
    assert current[e..m] == current[..m][e..] == text[..m][e..] == text[e..m];
    assert current[e..] == current[e..m] + current[m..];
  }

  lemma StartOfSplice(a: bytes, b: bytes, c: bytes)
    ensures (a + b + c)[..|a|] == a && (a + b + c)[|a|..] == b + c
  {
  }

  lemma {:induction false} BackwardsIsSimultaneous(tab: Table, alphabet: set<byte>, text: bytes, current: bytes,
                                                   hits: seq<Hit>, confirm: Match -> bool, value: bytes, m: nat)
    requires Plain(tab, alphabet) && Over(alphabet, text) && Over(alphabet, current) && Over(alphabet, value)
    requires m <= |text| && m <= |current| && text[..m] == current[..m]
    requires forall i :: 0 <= i < |hits| ==> hits[i].begin <= hits[i].end <= m
    requires forall i, j :: 0 <= i < j < |hits| ==> hits[i].end <= hits[j].begin
    ensures ReplaceBackwards(tab, current, LocatedAll(tab, text, hits), confirm, value)
         == SpliceHits(tab, text, hits, confirm, value, m) + current[m..]
    decreases |hits|
  {
    hide Located, LocatedAll, Replaced, AsciiTable, Plain, Over;
    if hits == [] {
      LocatedNothing(tab, text);
      assert current == current[..m] + current[m..];
    } else {
      var front, last := hits[..|hits| - 1], hits[|hits| - 1];
      LocatedFront(tab, text, hits);
      var confirmed := confirm(Located(tab, text, last));
      LastHit(tab, alphabet, text, current, last, confirmed, value, m);
      var next := if confirmed then current[..last.begin] + value + current[last.end..] else current;
      BackwardsIsSimultaneous(tab, alphabet, text, next, front, confirm, value, last.begin);
      var before, kept := SpliceHits(tab, text, front, confirm, value, last.begin), text[last.end..m];
      var middle := if confirmed then value else text[last.begin..last.end];
      Regroup(before, middle, kept, current[m..]);
    }
  }

  lemma Regroup(a: bytes, b: bytes, c: bytes, d: bytes)
    ensures a + (b + c + d) == (a + b + c) + d
  {
  }

  /** The step for the last hit: what it leaves is plain, and agrees with the text before the hit. */
  lemma LastHit(tab: Table, alphabet: set<byte>, text: bytes, current: bytes, last: Hit, confirmed: bool,
                value: bytes, m: nat)
    requires Plain(tab, alphabet) && Over(alphabet, text) && Over(alphabet, current) && Over(alphabet, value)
    requires last.begin <= last.end <= m <= |text| && m <= |current| && text[..m] == current[..m]
    ensures var next := if confirmed then current[..last.begin] + value + current[last.end..] else current;
            var middle := if confirmed then value else text[last.begin..last.end];
            && Over(alphabet, next) && last.begin <= |next| && next[..last.begin] == text[..last.begin]
            && next[last.begin..] == middle + text[last.end..m] + current[m..]
            && (confirmed ==>
                  Replaced(tab, current, Located(tab, text, last).begin, Located(tab, text, last).end, value) == next)
  {
    hide Located, Replaced, AsciiTable, Plain, Over;
    LocatedBegins(tab, text, last);
    PlainParts(alphabet, current, value, last.begin, last.end);
    AfterLastHit(text, current, last.begin, last.end, m, value);
    if confirmed {
      PrefixOfPrefix(text, current, last.end, m);
      ReplaceAtOriginal(tab, alphabet, text, current, last.begin, last.end, value);
    }
  }

  lemma PlainParts(alphabet: set<byte>, current: bytes, value: bytes, b: nat, e: nat)
    requires Over(alphabet, current) && Over(alphabet, value) && b <= e <= |current|
    ensures Over(alphabet, current[..b] + value + current[e..])
  {
  }

  lemma LocatedFront(tab: Table, text: bytes, hits: seq<Hit>)
    requires hits != []
    ensures |LocatedAll(tab, text, hits)| == |hits|
    ensures LocatedAll(tab, text, hits)[..|hits| - 1] == LocatedAll(tab, text, hits[..|hits| - 1])
    ensures LocatedAll(tab, text, hits)[|hits| - 1] == Located(tab, text, hits[|hits| - 1])
  {
  }

  lemma LocatedBegins(tab: Table, text: bytes, hit: Hit)
    ensures Located(tab, text, hit).begin == PositionOf(tab, text, hit.begin)
    ensures Located(tab, text, hit).end == PositionOf(tab, text, hit.end)
  {
  }

  /** `confirm_each` leaves the original text with exactly the confirmed matches replaced. */
  ghost predicate Splices(tab: Table, text: bytes, query: Query, confirm: Match -> bool, value: bytes) {
    var hits := Hits(tab, query, text);
    HitsOfAll(tab, query, text);
    ReplaceBackwards(tab, text, LocatedAll(tab, text, hits), confirm, value)
    == SpliceHits(tab, text, hits, confirm, value, |text|)
  }

  lemma HitsOfAll(tab: Table, query: Query, text: bytes)
    ensures HitsOk(query, text, Hits(tab, query, text), 0)
  {
    hide HitsFrom, HitsOk;
    HitsAreMatches(tab, query, text, 0);
    NoHits(query, text);
  }

  lemma NoHits(query: Query, text: bytes)
    ensures HitsOk(query, text, [], 0)
  {
  }

  lemma ConfirmEachSplices(tab: Table, alphabet: set<byte>, text: bytes, query: Query, confirm: Match -> bool,
                           value: bytes)
    requires Plain(tab, alphabet) && Over(alphabet, text) && Over(alphabet, value)
    ensures Splices(tab, text, query, confirm, value)
  {
    hide Plain, Over, AsciiTable, HitsFrom;
    var hits := Hits(tab, query, text);
    HitsOfAll(tab, query, text);
    BackwardsIsSimultaneous(tab, alphabet, text, text, hits, confirm, value, |text|);
    assert text[|text|..] == [];
  }

  // ----- bytes that join

  lemma {:induction false} NoFeedOneStart(text: bytes, n: nat)
    requires n <= |text| && LF !in text
    ensures LineStartsUpTo(text, n) == [0]
  {
    if n > 0 {
      NoFeedOneStart(text, n - 1);
    }
  }

  /** `e` is one cluster, and twice its first byte is two. */
  ghost predicate Joins(tab: Table, e: bytes) {
    |e| > 1 && e[0] != LF && Plain(tab, {e[0]}) && NextBreak(tab, e, 0) == |e|
  }

  lemma CrLfJoins(tab: Table)
    requires AsciiTable(tab)
    ensures Joins(tab, [CR, LF])
  {
    hide NextBreak;
    NoLeadsNeverJoin({CR});
    CrLfBreak(tab, [CR, LF], 0);
  }

  lemma EncodingJoins(tab: Table, c: uint32)
    requires AsciiTable(tab) && tab(Utf8.REPLACEMENT) == Other && Utf8.IsScalar(c) && c >= 0x80
    ensures Joins(tab, Utf8.EncodeOne(c))
  {
    hide AsciiTable, NextCodepoint, Utf8.EncodeOne, Utf8.DecodeOneAt;
    var e := Utf8.EncodeOne(c);
    Utf8.EncodingLeads(c);
    NextCodepointAgrees(e, 0);
    assert e[0..] == e;
    Utf8.DecodeOneComplete(e, 0, c);
    forall d: uint32 | Utf8.IsScalar(d) && d >= 0x80
      ensures !Over({e[0]}, Utf8.EncodeOne(d))
    {
      Utf8.EncodingLeads(d);
    }
  }

  /** Every byte of the text is a match. */
  lemma BothBytesHit(tab: Table, a: byte)
    ensures Hits(tab, Query(Literal, [a], true), [a, a]) == [Hit(0, 1, 0), Hit(1, 2, 0)]
  {
    hide NextBreak;
    var query, text: bytes := Query(Literal, [a], true), [a, a];
    assert MatchAt(query, text, 0) == Some((1, 0)) && MatchAt(query, text, 1) == Some((2, 0));
    assert HitsFrom(tab, query, text, 2) == [];
    assert HitsFrom(tab, query, text, 1) == [Hit(1, 2, 0)];
  }

  lemma HitPositions(tab: Table, a: byte)
    requires a != LF && Plain(tab, {a})
    ensures forall b: nat :: b <= 2 ==> PositionOf(tab, [a, a], b) == Pos(0, b)
  {
    hide PositionOf, Plain;
    var text := [a, a];
    forall b: nat | b <= 2
      ensures PositionOf(tab, text, b) == Pos(0, b)
    {
      PlainPosition(tab, {a}, text, b);
      NoFeedOneStart(text, b);
    }
  }

  /** Replacing the last byte of the text by the rest of `e` leaves `e`. */
  lemma LastByteReplaced(tab: Table, e: bytes)
    requires |e| > 1 && e[0] != LF && Plain(tab, {e[0]})
    ensures Replaced(tab, [e[0], e[0]], Pos(0, 1), Pos(0, 2), e[1..]) == e
  {
    hide Replaced, PositionOf, Plain;
    var text := [e[0], e[0]];
    HitPositions(tab, e[0]);
    assert PositionOf(tab, text, 1) == Pos(0, 1) && PositionOf(tab, text, 2) == Pos(0, 2);
    ReplaceAtOriginal(tab, {e[0]}, text, text, 1, 2, e[1..]);
    assert text[..1] + e[1..] + text[2..] == e;
  }

  /** Replacing the cluster at the start of `e` replaces all of it. */
  lemma FirstClusterReplaced(tab: Table, e: bytes, value: bytes)
    requires |e| > 1 && e[0] != LF && NextBreak(tab, e, 0) == |e|
    ensures Replaced(tab, e, Pos(0, 0), Pos(0, 1), value) == value
  {
    hide NextBreak, LineStarts;
    LineStartsFacts(e);
    LineStartsFacts([]);
    var end := LineEnd(LineStarts(e), e, 0);
    assert 0 < end;
    assert Walk(tab, e, 0, end, 1) == Walk(tab, e, |e|, end, 0);
    assert OffsetOf(tab, e, Pos(0, 0)) == 0 && OffsetOf(tab, e, Pos(0, 1)) == |e|;
    assert Erased(tab, e, Pos(0, 0), Pos(0, 1)) == [];
    assert OffsetOf(tab, [], Pos(0, 0)) == 0;
  }

  /**
   * A replacement can join with what is before it: replacing both bytes by the rest of `e` makes `e`
   * first, one cluster, and then replaces all of it.
   */
  lemma ReplacementJoins(tab: Table, e: bytes, all: Match -> bool)
    requires Joins(tab, e) && forall m :: all(m)
    ensures !Splices(tab, [e[0], e[0]], Query(Literal, [e[0]], true), all, e[1..])
  {
    hide NextBreak, LineStarts, Replaced, Hits, Plain;
    var a, value := e[0], e[1..];
    var query, text := Query(Literal, [a], true), [a, a];
    HitsOfAll(tab, query, text);
    var hits := [Hit(0, 1, 0), Hit(1, 2, 0)];
    BothBytesHit(tab, a);
    HitPositions(tab, a);
    var matches := LocatedAll(tab, text, hits);
    assert matches == [Match(Pos(0, 0), Pos(0, 1), 0), Match(Pos(0, 1), Pos(0, 2), 0)];
    LastByteReplaced(tab, e);
    FirstClusterReplaced(tab, e, value);
    assert matches[..1] == [matches[0]] && matches[..1][..0] == [];
    assert ReplaceBackwards(tab, value, [], all, value) == value;
    assert ReplaceBackwards(tab, e, matches[..1], all, value) == value;
    assert hits[..1][..0] == [];
    assert SpliceHits(tab, text, [], all, value, 0) == [];
    assert SpliceHits(tab, text, hits[..1], all, value, 1) == value;
    assert SpliceHits(tab, text, hits, all, value, 2) == value + value;
  }

  /** When bytes of the alphabet can join, two of one byte, replaced one by one, do. */
  lemma JoiningBytesDoNotSplice(tab: Table, alphabet: set<byte>, all: Match -> bool) returns (e: bytes)
    requires Suits(tab, alphabet) && !NeverJoin(alphabet) && forall m :: all(m)
    ensures |e| > 1 && Over(alphabet, e)
    ensures !Splices(tab, [e[0], e[0]], Query(Literal, [e[0]], true), all, e[1..])
  {
    hide AsciiTable, Utf8.EncodeOne, Splices, Plain, NextBreak;
    if CR in alphabet && LF in alphabet {
      e := [CR, LF];
      CrLfJoins(tab);
    } else {
      var c: uint32 :| Utf8.IsScalar(c) && c >= 0x80 && Over(alphabet, Utf8.EncodeOne(c));
      e := Utf8.EncodeOne(c);
      Utf8.EncodingLeads(c);
      EncodingJoins(tab, c);
    }
    ReplacementJoins(tab, e, all);
  }

  /** The bytes for which replacing from the right end is one splice, whatever is sought, confirmed and put in. */
  lemma SplicesWhereBytesNeverJoin(tab: Table, alphabet: set<byte>)
    requires Suits(tab, alphabet)
    ensures (forall text, query, confirm: Match -> bool, value ::
               Over(alphabet, text) && Over(alphabet, value) ==> Splices(tab, text, query, confirm, value))
            <==> NeverJoin(alphabet)
  {
    hide Suits, Over, NeverJoin, Splices;
    if NeverJoin(alphabet) {
      forall text, query, confirm: Match -> bool, value | Over(alphabet, text) && Over(alphabet, value)
        ensures Splices(tab, text, query, confirm, value)
      {
        ConfirmEachSplices(tab, alphabet, text, query, confirm, value);
      }
    } else {
      var e := JoiningBytesDoNotSplice(tab, alphabet, _ => true);
      OverFirst(alphabet, e);
    }
  }

  lemma OverFirst(alphabet: set<byte>, e: bytes)
    requires |e| > 1 && Over(alphabet, e)
    ensures Over(alphabet, [e[0], e[0]]) && Over(alphabet, e[1..]) && Over(alphabet, [e[0]])
  {
  }
}
