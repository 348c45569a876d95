/**
 * The clusters as a pattern (table 1c of UAX #29): CR LF, one control, or prepended code points, a
 * core and what extends it. Where the rules decide pair by pair, the pattern says what a whole
 * cluster looks like; `next_break` ends the longest one there is.
 */
module ClusterPattern {
  import opened Bytes
  import opened Grapheme
  import opened GraphemeRules

  ghost predicate Each(ps: seq<Property>, allowed: set<Property>) {
    forall k :: 0 <= k < |ps| ==> ps[k] in allowed
  }

  /** V+ | LV V* | LVT */
  ghost predicate Vowels(ps: seq<Property>) {
    ps != [] && (ps == [Lvt] || (ps[0] in {V, Lv} && Each(ps[1..], {V})))
  }

  /** L+ | T+ | L* (V+ | LV V* | LVT) T*, the vowels being ps[a..b]. */
  ghost predicate HangulCut(ps: seq<Property>, a: nat, b: nat) {
    && a <= b <= |ps| && Each(ps[..a], {L}) && Each(ps[b..], {T})
    && (Vowels(ps[a..b]) || (a == b && (a == 0 || a == |ps|)))
  }

  ghost predicate Hangul(ps: seq<Property>) {
    ps != [] && exists a: nat, b: nat :: HangulCut(ps, a, b)
  }

  /** ExtPict ((Extend | ZWJ)* ZWJ ExtPict)* */
  ghost predicate Pictographs(ps: seq<Property>) {
    && ps != [] && ps[0] == ps[|ps| - 1] == ExtendedPictographic
    && Each(ps, {Extend, Zwj, ExtendedPictographic})
    && forall k :: 0 < k < |ps| && ps[k] == ExtendedPictographic ==> ps[k - 1] == Zwj
  }

  ghost predicate Core(ps: seq<Property>) {
    || (|ps| == 1 && !IsControl(ps[0]))
    || ps == [RegionalIndicator, RegionalIndicator]
    || Hangul(ps)
    || Pictographs(ps)
  }

  /** Prepended code points up to i, the core up to j, and what extends it. */
  ghost predicate Parts(ps: seq<Property>, i: nat, j: nat) {
    && i < j <= |ps|
    && Each(ps[..i], {Prepend}) && Core(ps[i..j]) && Each(ps[j..], {Extend, Zwj, SpacingMark})
  }

  ghost predicate IsCluster(ps: seq<Property>) {
    || ps == [Cr, Lf]
    || (|ps| == 1 && IsControl(ps[0]))
    || exists i: nat, j: nat :: Parts(ps, i, j)
  }

  ghost predicate AllJoin(ps: seq<Property>) {
    forall k :: 0 < k < |ps| ==> Joins(ps, k)
  }

  // ----- what matches the pattern holds no boundary

  lemma CoreHasNoControl(ps: seq<Property>)
    requires Core(ps)
    ensures ps != [] && forall k :: 0 <= k < |ps| ==> !IsControl(ps[k])
  {
    forall k | 0 <= k < |ps|
      ensures !IsControl(ps[k])
    {
      if Hangul(ps) {
        var a: nat, b: nat :| HangulCut(ps, a, b);
        HangulAt(ps, a, b, k);
      } else if Pictographs(ps) {
        assert ps[k] in {Extend, Zwj, ExtendedPictographic};
      } else {
        assert k == 0 || k == 1;
      }
    }
  }

  lemma HangulAt(ps: seq<Property>, a: nat, b: nat, k: nat)
    requires HangulCut(ps, a, b) && k < |ps|
    ensures k < a ==> ps[k] == L
    ensures k >= b ==> ps[k] == T
    ensures a <= k < b ==> (ps[k] == Lvt && b == a + 1) || ps[k] == V || (ps[k] == Lv && k == a)
  {
    assert k < a ==> ps[..a][k] == ps[k];
    assert k >= b ==> ps[b..][k - b] == ps[k];
    assert a <= k < b ==> ps[a..b][k - a] == ps[k];
    assert a < k < b ==> ps[a..b][1..][k - a - 1] == ps[k];
  }

  lemma HangulPairs(ps: seq<Property>, k: nat)
    requires Hangul(ps) && 0 < k < |ps|
    ensures GB6(ps[k - 1], ps[k]) || GB7(ps[k - 1], ps[k]) || GB8(ps[k - 1], ps[k])
    ensures !IsControl(ps[k - 1]) && !IsControl(ps[k])
  {
    var a: nat, b: nat :| HangulCut(ps, a, b);
    HangulAt(ps, a, b, k - 1);
    HangulAt(ps, a, b, k);
    if a < b {
      HangulAt(ps, a, b, a);
    }
  }

  lemma PartAt(ps: seq<Property>, i: nat, j: nat, k: nat)
    requires Parts(ps, i, j) && k < |ps|
    ensures k < i ==> ps[k] == Prepend
    ensures i <= k < j ==> ps[i..j][k - i] == ps[k] && !IsControl(ps[k])
    ensures k >= j ==> ps[k] in {Extend, Zwj, SpacingMark}
  {
    CoreHasNoControl(ps[i..j]);
    assert k < i ==> ps[..i][k] == ps[k];
    assert k >= j ==> ps[j..][k - j] == ps[k];
  }

  /** Within a core of pictographs some pictograph stands before every place. */
  lemma {:induction false} PictographsReach(ps: seq<Property>, i: nat, j: nat, k: nat)
    requires i < k <= j <= |ps| && Pictographs(ps[i..j])
    ensures PictographicTail(ps, k)
    decreases k
  {
    hide PictographicTail;
    PictographicTailStep(ps, k - 1);
    var core, m := ps[i..j], k - 1 - i;
    assert core[m] == ps[k - 1];
    if m > 0 {
      PictographsReach(ps, i, j, k - 1);
      assert core[m] in {Extend, Zwj, ExtendedPictographic};
    }
  }

  lemma CoreJoins(ps: seq<Property>, i: nat, j: nat, k: nat)
    requires Parts(ps, i, j) && i < k < j
    ensures Joins(ps, k)
  {
    hide PictographicTail, Hangul;
    var core := ps[i..j];
    PartAt(ps, i, j, k - 1);
    PartAt(ps, i, j, k);
    if Hangul(core) {
      HangulPairs(core, k - i);
    } else if Pictographs(core) {
      if ps[k] == ExtendedPictographic {
        assert ps[k - 1] == Zwj && k - 1 > i;
        PictographsReach(ps, i, j, k - 1);
      }
    } else {
      assert ps[i] == ps[i + 1] == RegionalIndicator && k == i + 1;
      if i > 0 {
        PartAt(ps, i, j, i - 1);
      }
      assert RegionalRun(ps, i) == 0 && RegionalRun(ps, k) == 1;
    }
  }

  lemma ClusterJoins(ps: seq<Property>)
    requires IsCluster(ps)
    ensures AllJoin(ps)
  {
    if i: nat, j: nat :| Parts(ps, i, j) {
      forall k | 0 < k < |ps|
        ensures Joins(ps, k)
      {
        PartAt(ps, i, j, k - 1);
        PartAt(ps, i, j, k);
        if i < k < j {
          CoreJoins(ps, i, j, k);
        }
      }
    }
  }

  // ----- what holds no boundary matches the pattern

  lemma OneIsCluster(ps: seq<Property>)
    requires |ps| == 1
    ensures IsCluster(ps)
  {
    if !IsControl(ps[0]) {
      assert ps[0..1] == ps;
      assert Parts(ps, 0, 1);
    }
  }

  /** A prefix joins as it does within the whole. */
  lemma {:induction false} LookBackPrefix(ps: seq<Property>, n: nat, k: nat)
    requires k <= n <= |ps|
    ensures RegionalRun(ps[..n], k) == RegionalRun(ps, k)
    ensures PictographicTail(ps[..n], k) == PictographicTail(ps, k)
  {
    hide PictographicTail;
    if k > 0 {
      LookBackPrefix(ps, n, k - 1);
      PictographicTailStep(ps, k - 1);
      PictographicTailStep(ps[..n], k - 1);
    } else {
      NoTail(ps);
      NoTail(ps[..n]);
    }
  }

  lemma JoinsPrefix(ps: seq<Property>, n: nat, k: nat)
    requires 0 < k < n <= |ps|
    ensures Joins(ps[..n], k) == Joins(ps, k)
  {
    hide PictographicTail;
    LookBackPrefix(ps, n, k);
    LookBackPrefix(ps, n, k - 1);
  }

  /** A longer core, when all the rest of the cluster so far belongs to it. */
  lemma CoreTo(ps: seq<Property>, i: nat, core: seq<Property>)
    requires ps != [] && i < |ps| && Each(ps[..i], {Prepend}) && ps[i..] == core && Core(core)
    ensures IsCluster(ps)
  {
    assert ps[i..|ps|] == core && ps[|ps|..] == [];
    assert Parts(ps, i, |ps|);
  }

  lemma PartsPrefix(ps: seq<Property>, i: nat, j: nat)
    requires |ps| > 1 && Parts(ps[..|ps| - 1], i, j)
    ensures ps[..i] == ps[..|ps| - 1][..i] && ps[i..j] == ps[..|ps| - 1][i..j]
    ensures ps[j..] == ps[..|ps| - 1][j..] + [ps[|ps| - 1]]
  {
  }

  /** What extends the cluster so far goes behind its core. */
  lemma OneMoreExtends(ps: seq<Property>, i: nat, j: nat)
    requires |ps| > 1 && Parts(ps[..|ps| - 1], i, j) && ps[|ps| - 1] in {Extend, Zwj, SpacingMark}
    ensures IsCluster(ps)
  {
    hide Core;
    PartsPrefix(ps, i, j);
    assert Parts(ps, i, j);
  }

  /** Behind a prepended code point anything starts the core. */
  lemma OneMoreAfterPrepend(ps: seq<Property>, i: nat, j: nat)
    requires |ps| > 1 && Parts(ps[..|ps| - 1], i, j) && ps[|ps| - 2] == Prepend && !IsControl(ps[|ps| - 1])
    ensures IsCluster(ps)
  {
    hide Hangul;
    var n := |ps| - 1;
    var front := ps[..n];
    PartAt(front, i, j, n - 1);
    PrependAlone(front[i..j]);
    forall k | 0 <= k < n
      ensures ps[k] == Prepend
    {
      PartAt(front, i, j, k);
    }
    CoreTo(ps, n, [ps[n]]);
  }

  lemma PrependAlone(core: seq<Property>)
    requires Core(core) && core[|core| - 1] == Prepend
    ensures core == [Prepend]
  {
    if Hangul(core) {
      var a: nat, b: nat :| HangulCut(core, a, b);
      HangulAt(core, a, b, |core| - 1);
    }
  }

  /** A Hangul syllable goes on. */
  lemma OneMoreHangul(ps: seq<Property>, i: nat, j: nat)
    requires |ps| > 1 && Parts(ps[..|ps| - 1], i, j)
    requires var x, y := ps[|ps| - 2], ps[|ps| - 1]; GB6(x, y) || GB7(x, y) || GB8(x, y)
    ensures IsCluster(ps)
  {
    hide Hangul;
    var n := |ps| - 1;
    PartAt(ps[..n], i, j, n - 1);
    PartsPrefix(ps, i, j);
    var core := ps[i..j];
    HangulGrows(core, ps[n]);
    assert ps[i..] == core + [ps[n]];
    CoreTo(ps, i, core + [ps[n]]);
  }

  lemma HangulGrows(core: seq<Property>, p: Property)
    requires Core(core)
    requires var x := core[|core| - 1]; GB6(x, p) || GB7(x, p) || GB8(x, p)
    ensures Hangul(core + [p])
  {
    SyllableOf(core);
    var a: nat, b: nat :| HangulCut(core, a, b);
    SyllableGrows(core, a, b, p);
  }

  lemma SyllableOf(core: seq<Property>)
    requires Core(core) && core[|core| - 1] in {L, V, T, Lv, Lvt}
    ensures exists a: nat, b: nat :: HangulCut(core, a, b)
  {
    if |core| == 1 {
      assert core[0..1] == core;
      assert HangulCut(core, if core[0] == L then 1 else 0, if core[0] == T then 0 else 1);
    } else {
      assert Hangul(core);
    }
  }

  lemma SyllableGrows(core: seq<Property>, a: nat, b: nat, p: Property)
    requires core != [] && HangulCut(core, a, b)
    requires var x := core[|core| - 1]; GB6(x, p) || GB7(x, p) || GB8(x, p)
    ensures Hangul(core + [p])
  {
    hide HangulCut;
    var n := |core|;
    HangulAt(core, a, b, n - 1);
    if core[n - 1] == L {
      GrowsBehindLeading(core, a, b, p);
    } else if p == T {
      GrowsByTrailing(core, a, b);
    } else {
      GrowsByVowel(core, a, b);
    }
  }

  lemma GrowsBehindLeading(core: seq<Property>, a: nat, b: nat, p: Property)
    requires core != [] && HangulCut(core, a, b) && core[|core| - 1] == L && p in {L, V, Lv, Lvt}
    ensures Hangul(core + [p])
  {
    var n, grown := |core|, core + [p];
    HangulAt(core, a, b, n - 1);
    assert grown[..n] == core[..a] && grown[n..n + 1] == [p];
    assert p == L ==> grown[..n + 1] == core[..a] + [L];
    assert HangulCut(grown, if p == L then n + 1 else n, n + 1);
  }

  lemma GrowsByTrailing(core: seq<Property>, a: nat, b: nat)
    requires core != [] && HangulCut(core, a, b) && core[|core| - 1] != L
    ensures Hangul(core + [T])
  {
    var grown := core + [T];
    HangulAt(core, a, b, |core| - 1);
    assert grown[..a] == core[..a] && grown[a..b] == core[a..b] && grown[b..] == core[b..] + [T];
    assert HangulCut(grown, a, b);
  }

  lemma OneLonger(core: seq<Property>, p: Property, a: nat)
    requires a < |core|
    ensures (core + [p])[..a] == core[..a]
    ensures (core + [p])[a..|core| + 1] == core[a..|core|] + [p]
    ensures (core[a..|core|] + [p])[1..] == core[a..|core|][1..] + [p]
    ensures core[a..|core|][|core| - 1 - a] == core[|core| - 1]
  {
  }

  lemma GrowsByVowel(core: seq<Property>, a: nat, b: nat)
    requires core != [] && HangulCut(core, a, b) && core[|core| - 1] in {V, Lv}
    ensures Hangul(core + [V])
  {
    HangulAt(core, a, b, |core| - 1);
    OneLonger(core, V, a);
    VowelsGrow(core[a..|core|]);
    assert HangulCut(core + [V], a, |core| + 1);
  }

  lemma VowelsGrow(vowels: seq<Property>)
    requires Vowels(vowels) && vowels[|vowels| - 1] in {V, Lv}
    ensures Vowels(vowels + [V])
  {
    assert (vowels + [V])[1..] == vowels[1..] + [V];
  }

  /** A second regional indicator completes a pair; a third one would have an even run before it. */
  lemma OneMoreRegional(ps: seq<Property>, i: nat, j: nat)
    requires |ps| > 1 && Parts(ps[..|ps| - 1], i, j)
    requires ps[|ps| - 1] == RegionalIndicator && RegionalRun(ps, |ps| - 1) % 2 == 1
    ensures IsCluster(ps)
  {
    hide Core, RegionalRun;
    var n := |ps| - 1;
    var front := ps[..n];
    RunAt(ps, n);
    RunAt(ps, i);
    PartAt(front, i, j, n - 1);
    PartsPrefix(ps, i, j);
    assert j == n;
    RegionalCore(front[i..n]);
    if i > 0 {
      PartAt(front, i, j, i - 1);
    }
    PairIsCore();
    RunOfPair(ps, i, n);
    CoreTo(ps, i, [RegionalIndicator, RegionalIndicator]);
  }

  lemma RunAt(ps: seq<Property>, k: nat)
    requires k <= |ps|
    ensures RegionalRun(ps, k) > 0 <==> k > 0 && ps[k - 1] == RegionalIndicator
  {
  }

  lemma PairIsCore()
    ensures Core([RegionalIndicator, RegionalIndicator])
  {
  }

  lemma RunOfPair(ps: seq<Property>, i: nat, n: nat)
    requires i < n <= |ps| && RegionalRun(ps, i) == 0 && RegionalRun(ps, n) % 2 == 1
    ensures ps[i..n] != [RegionalIndicator, RegionalIndicator]
  {
    if ps[i..n] == [RegionalIndicator, RegionalIndicator] {
      assert ps[i] == ps[i..n][0] && ps[i + 1] == ps[i..n][1];
      assert RegionalRun(ps, i + 1) == 1;
    }
  }

  lemma RegionalCore(core: seq<Property>)
    requires Core(core) && core[|core| - 1] == RegionalIndicator
    ensures core == [RegionalIndicator] || core == [RegionalIndicator, RegionalIndicator]
  {
    if Hangul(core) {
      var a: nat, b: nat :| HangulCut(core, a, b);
      HangulAt(core, a, b, |core| - 1);
    }
  }

  /** A pictograph behind a joiner makes everything since the first pictograph the core. */
  lemma OneMorePictograph(ps: seq<Property>, i: nat, j: nat)
    requires |ps| > 1 && Parts(ps[..|ps| - 1], i, j)
    requires ps[|ps| - 1] == ExtendedPictographic && PictographicZwj(ps, |ps| - 1)
    ensures IsCluster(ps)
  {
    hide Hangul;
    var n := |ps| - 1;
    var front := ps[..n];
    var m: nat :| PictographicAt(ps, m, n - 1);
    PartAt(front, i, j, m);
    PictographCore(front[i..j], m - i);
    PartsPrefix(ps, i, j);
    var core := ps[i..];
    forall k | 0 <= k < |core|
      ensures core[k] in {Extend, Zwj, ExtendedPictographic}
      ensures k > 0 && core[k] == ExtendedPictographic ==> core[k - 1] == Zwj
    {
      PictographBefore(ps, i, j, m, k);
    }
    PartAt(front, i, j, i);
    CoreTo(ps, i, core);
  }

  lemma PictographBefore(ps: seq<Property>, i: nat, j: nat, m: nat, k: nat)
    requires |ps| > 1 && i < j <= |ps| - 1 && i <= m < j && Pictographs(ps[i..j])
    requires PictographicAt(ps, m, |ps| - 2) && ps[|ps| - 2] == Zwj && ps[|ps| - 1] == ExtendedPictographic
    requires i + k < |ps|
    ensures ps[i..][k] in {Extend, Zwj, ExtendedPictographic}
    ensures k > 0 && ps[i..][k] == ExtendedPictographic ==> ps[i..][k - 1] == Zwj
  {
    var core := ps[i..j];
    if i + k < j {
      assert ps[i..][k] == core[k] && (k > 0 ==> ps[i..][k - 1] == core[k - 1]);
    } else {
      assert ps[i..][k] == ps[i + k] && ps[i..][k - 1] == ps[i + k - 1];
    }
  }

  lemma PictographCore(core: seq<Property>, m: nat)
    requires Core(core) && m < |core| && core[m] == ExtendedPictographic
    ensures Pictographs(core)
  {
    if Hangul(core) {
      var a: nat, b: nat :| HangulCut(core, a, b);
      HangulAt(core, a, b, m);
    }
  }

  lemma {:induction false} JoinedIsCluster(ps: seq<Property>)
    requires ps != [] && AllJoin(ps)
    ensures IsCluster(ps)
    decreases |ps|
  {
    hide Parts, PictographicZwj, RegionalRun;
    if |ps| == 1 {
      OneIsCluster(ps);
    } else {
      var n := |ps| - 1;
      var front := ps[..n];
      forall k | 0 < k < n
        ensures Joins(front, k)
      {
        JoinsPrefix(ps, n, k);
      }
      JoinedIsCluster(front);
      assert Joins(ps, n) && front[n - 1] == ps[n - 1];
      if i: nat, j: nat :| Parts(front, i, j) {
        OneMore(ps, i, j);
      }
    }
  }

  lemma OneMore(ps: seq<Property>, i: nat, j: nat)
    requires |ps| > 1 && Parts(ps[..|ps| - 1], i, j) && Joins(ps, |ps| - 1)
    ensures IsCluster(ps)
  {
    hide Parts, PictographicZwj, RegionalRun, IsCluster;
    var n := |ps| - 1;
    var before, after := ps[n - 1], ps[n];
    NoControlInside(ps[..n], i, j, n - 1);
    if GB6(before, after) || GB7(before, after) || GB8(before, after) {
      OneMoreHangul(ps, i, j);
    } else if after in {Extend, Zwj, SpacingMark} {
      OneMoreExtends(ps, i, j);
    } else if before == Prepend {
      OneMoreAfterPrepend(ps, i, j);
    } else if after == ExtendedPictographic {
      OneMorePictograph(ps, i, j);
    } else {
      OneMoreRegional(ps, i, j);
    }
  }

  lemma NoControlInside(ps: seq<Property>, i: nat, j: nat, k: nat)
    requires Parts(ps, i, j) && k < |ps|
    ensures !IsControl(ps[k])
  {
    PartAt(ps, i, j, k);
  }

  /** The rules put no boundary inside a list of code points exactly when it matches the pattern. */
  lemma RulesArePattern(ps: seq<Property>)
    requires ps != []
    ensures AllJoin(ps) <==> IsCluster(ps)
  {
    if AllJoin(ps) {
      JoinedIsCluster(ps);
    }
    if IsCluster(ps) {
      ClusterJoins(ps);
    }
  }

  /** From anywhere, `next_break` passes over the longest run of code points that matches the pattern. */
  lemma NextBreakIsLongest(tab: Table, text: bytes, start: nat) returns (e: nat)
    requires start < |text|
    ensures var ps, offs := Properties(tab, text, start), Offsets(tab, text, start);
            && 0 < e <= |ps| && NextBreak(tab, text, start) == offs[e]
            && forall n :: 0 < n <= |ps| ==> (IsCluster(ps[..n]) <==> n <= e)
  {
    hide NextCodepoint, NextBreak, Offsets, Joins, IsCluster;
    var ps := Properties(tab, text, start);
    assert ps != [];
    hide Properties;
    e := RuleBreak(ps, 1);
    NextBreakIsRuleBreak(tab, text, start, 0);
    forall n | 0 < n <= |ps|
      ensures IsCluster(ps[..n]) <==> n <= e
    {
      RulesArePattern(ps[..n]);
      forall k | 0 < k < n
        ensures Joins(ps[..n], k) == Joins(ps, k)
      {
        JoinsPrefix(ps, n, k);
      }
      if n > e {
        assert !Joins(ps[..n], e);
      }
    }
  }

  // ----- regional indicators pair up

  function CountRegional(ps: seq<Property>, first: nat, last: nat): nat
    requires first <= last <= |ps|
  {
    if first == last then 0
    else CountRegional(ps, first, last - 1) + (if ps[last - 1] == RegionalIndicator then 1 else 0)
  }

  lemma {:induction false} CountBetween(ps: seq<Property>, a: nat, b: nat, c: nat)
    requires a <= b <= c <= |ps|
    ensures CountRegional(ps, a, c) == CountRegional(ps, a, b) + CountRegional(ps, b, c)
    ensures CountRegional(ps, b, c) <= c - b
    ensures (forall k :: b <= k < c ==> ps[k] != RegionalIndicator) ==> CountRegional(ps, b, c) == 0
  {
    if b < c {
      CountBetween(ps, a, b, c - 1);
    }
  }

  lemma LongCoreHasNone(core: seq<Property>, k: nat)
    requires Core(core) && |core| > 2 && k < |core|
    ensures core[k] != RegionalIndicator
  {
    if Hangul(core) {
      var a: nat, b: nat :| HangulCut(core, a, b);
      HangulAt(core, a, b, k);
    }
  }

  lemma ClusterRegionals(ps: seq<Property>)
    requires IsCluster(ps)
    ensures CountRegional(ps, 0, |ps|) <= 2
  {
    hide Core, CountRegional;
    if i: nat, j: nat :| Parts(ps, i, j) {
      forall k | 0 <= k < |ps|
        ensures k < i || k >= j || j - i > 2 ==> ps[k] != RegionalIndicator
      {
        PartAt(ps, i, j, k);
        if i <= k < j && j - i > 2 {
          LongCoreHasNone(ps[i..j], k - i);
        }
      }
      CountBetween(ps, 0, 0, i);
      CountBetween(ps, 0, i, j);
      CountBetween(ps, 0, j, |ps|);
    } else {
      CountBetween(ps, 0, 0, |ps|);
    }
  }

  /** No cluster holds more than two regional indicators. */
  lemma AtMostTwoRegionals(tab: Table, text: bytes, start: nat) returns (e: nat)
    requires start < |text|
    ensures var ps, offs := Properties(tab, text, start), Offsets(tab, text, start);
            && e <= |ps| && NextBreak(tab, text, start) == offs[e]
            && CountRegional(ps[..e], 0, e) <= 2
  {
    hide NextBreak, Properties, Offsets, IsCluster;
    e := NextBreakIsLongest(tab, text, start);
    ClusterRegionals(Properties(tab, text, start)[..e]);
  }
}
