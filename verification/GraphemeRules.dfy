/**
 * The segmenter against the boundary rules of section 3.1.1 of UAX #29.
 *
 * The rules look back without limit; `next_break` looks back through three loop variables that
 * start afresh at every cluster. Both put boundaries at the same places.
 */
module GraphemeRules {
  import opened Bytes
  import opened Grapheme

  /** The properties of all code points from `start` on. */
  function Properties(tab: Table, text: bytes, start: nat): seq<Property>
    requires start <= |text|
    decreases |text| - start
  {
    if start == |text| then []
    else
      var c := NextCodepoint(text, start);
      [tab(c.value)] + Properties(tab, text, c.end)
  }

  /** The byte offsets where those code points start, and the end of the text. */
  function Offsets(tab: Table, text: bytes, start: nat): (offs: seq<nat>)
    requires start <= |text|
    ensures |offs| == |Properties(tab, text, start)| + 1 && offs[0] == start
    ensures forall i :: 0 <= i < |offs| ==> start <= offs[i] <= |text|
    decreases |text| - start
  {
    if start == |text| then [start]
    else [start] + Offsets(tab, text, NextCodepoint(text, start).end)
  }

  // ----- the rules, over the properties of the whole text

  /** How many regional indicators stand in a row just before position k. */
  function RegionalRun(ps: seq<Property>, k: nat): nat
    requires k <= |ps|
  {
    if k == 0 || ps[k - 1] != RegionalIndicator then 0 else 1 + RegionalRun(ps, k - 1)
  }

  ghost predicate PictographicAt(ps: seq<Property>, j: nat, k: nat)
    requires k <= |ps|
  {
    && j < k && ps[j] == ExtendedPictographic
    && forall m :: j < m < k ==> ps[m] in {Extend, Zwj}
  }

  /** ExtPict (Extend | ZWJ)* stands just before position k. */
  ghost predicate PictographicTail(ps: seq<Property>, k: nat)
    requires k <= |ps|
  {
    exists j: nat :: PictographicAt(ps, j, k)
  }

  /** ExtPict (Extend | ZWJ)* ZWJ stands just before position k. */
  ghost predicate PictographicZwj(ps: seq<Property>, k: nat)
    requires k <= |ps|
  {
    k > 0 && ps[k - 1] == Zwj && PictographicTail(ps, k - 1)
  }

  predicate IsControl(p: Property) {
    p == Control || p == Cr || p == Lf
  }

  // CR x LF
  predicate GB3(before: Property, after: Property) {
    before == Cr && after == Lf
  }

  // L x (L | V | LV | LVT)
  predicate GB6(before: Property, after: Property) {
    before == L && (after == L || after == V || after == Lv || after == Lvt)
  }

  // (LV | V) x (V | T)
  predicate GB7(before: Property, after: Property) {
    (before == Lv || before == V) && (after == V || after == T)
  }

  // (LVT | T) x T
  predicate GB8(before: Property, after: Property) {
    (before == Lvt || before == T) && after == T
  }

  /**
   * There is no boundary between code points k - 1 and k. GB4 and GB5 put one around every control but
   * within CR LF; then GB6 to GB13 keep code points together; elsewhere there is one (GB999).
   */
  ghost predicate Joins(ps: seq<Property>, k: nat)
    requires 0 < k < |ps|
  {
    var before, after := ps[k - 1], ps[k];
    || GB3(before, after)
    || (&& !IsControl(before) && !IsControl(after)
        && (|| GB6(before, after) || GB7(before, after) || GB8(before, after)
            || after == Extend || after == Zwj                                     // GB9
            || after == SpacingMark                                                // GB9a
            || before == Prepend                                                   // GB9b
            || (PictographicZwj(ps, k) && after == ExtendedPictographic)           // GB11
            || (RegionalRun(ps, k) % 2 == 1 && after == RegionalIndicator)))       // GB12, GB13
  }

  /** `no_break`, told what stands before k, decides as the rules do. */
  lemma NoBreakIsJoins(ps: seq<Property>, k: nat)
    requires 0 < k < |ps|
    ensures NoBreak(ps[k - 1], ps[k], PictographicZwj(ps, k), RegionalRun(ps, k)) == Joins(ps, k)
  {
  }

  ghost predicate RuleStart(ps: seq<Property>, k: nat)
    requires k < |ps|
  {
    k == 0 || !Joins(ps, k)
  }

  /** The byte offsets the rules put boundaries before, from code point k on. */
  ghost function RuleStarts(ps: seq<Property>, offs: seq<nat>, k: nat): seq<nat>
    requires |offs| == |ps| + 1 && k <= |ps|
    decreases |ps| - k
  {
    if k == |ps| then []
    else (if RuleStart(ps, k) then [offs[k]] else []) + RuleStarts(ps, offs, k + 1)
  }

  /** The byte offsets where `segment` starts its clusters. */
  function ClusterStarts(tab: Table, text: bytes, start: nat): seq<nat>
    requires start <= |text|
    decreases |text| - start
  {
    if start == |text| then [] else [start] + ClusterStarts(tab, text, NextBreak(tab, text, start))
  }

  // ----- the loop variables stand for the unlimited look-back

  lemma PictographicTailStep(ps: seq<Property>, k: nat)
    requires k < |ps|
    ensures PictographicTail(ps, k + 1)
       <==> ps[k] == ExtendedPictographic || (ps[k] in {Extend, Zwj} && PictographicTail(ps, k))
  {
    if ps[k] == ExtendedPictographic {
      assert PictographicAt(ps, k, k + 1);
    } else if ps[k] in {Extend, Zwj} && PictographicTail(ps, k) {
      var j: nat :| PictographicAt(ps, j, k);
      assert PictographicAt(ps, j, k + 1);
    }
    if PictographicTail(ps, k + 1) {
      var j: nat :| PictographicAt(ps, j, k + 1);
      if j < k {
        assert PictographicAt(ps, j, k);
      }
    }
  }

  ghost predicate Tracks(scan: Scan, ps: seq<Property>, k: nat)
    requires 0 < k <= |ps|
  {
    && scan.previous == ps[k - 1]
    && scan.zwjAfterPictographic == PictographicZwj(ps, k)
    && scan.pictographic == PictographicTail(ps, k)
    && (ps[k - 1] == RegionalIndicator ==> scan.regional % 2 == RegionalRun(ps, k) % 2)
    && (ps[k - 1] !in {RegionalIndicator, Extend} ==> scan.regional == 0)
  }

  /** A cluster may be scanned as if nothing came before it. */
  lemma StartTracks(ps: seq<Property>, k: nat)
    requires k < |ps| && RuleStart(ps, k)
    ensures Tracks(StartScan(ps[k]), ps, k + 1)
  {
    hide PictographicTail, RuleStart;
    PictographicTailStep(ps, k);
    NothingReachesStart(ps, k);
  }

  /** No pictograph reaches across a boundary, and no odd run of regional indicators goes on behind one. */
  lemma NothingReachesStart(ps: seq<Property>, k: nat)
    requires k < |ps| && RuleStart(ps, k)
    ensures ps[k] in {Extend, Zwj} ==> !PictographicTail(ps, k)
    ensures ps[k] == RegionalIndicator ==> RegionalRun(ps, k) % 2 == 0
  {
    hide PictographicTail, PictographicZwj;
    if k > 0 {
      PictographicTailStep(ps, k - 1);
      assert IsControl(ps[k - 1]) ==> RegionalRun(ps, k) == 0;
      assert ps[k] in {Extend, Zwj} ==> IsControl(ps[k - 1]);
    } else {
      NoTail(ps);
    }
  }

  lemma NoTail(ps: seq<Property>)
    ensures !PictographicTail(ps, 0)
  {
  }

  lemma AdvanceTracks(scan: Scan, ps: seq<Property>, k: nat)
    requires 0 < k < |ps| && Tracks(scan, ps, k) && Joins(ps, k)
    ensures Tracks(Advance(scan, ps[k]), ps, k + 1)
  {
    hide PictographicTail, PictographicZwj, Joins, RegionalRun;
    PictographicTailStep(ps, k);
    RegionalRunStep(ps, k);
    RegionalRunStep(ps, k - 1);
    RegionalJoins(ps, k);
    ZwjStep(ps, k);
  }

  lemma RegionalRunStep(ps: seq<Property>, k: nat)
    requires k < |ps|
    ensures RegionalRun(ps, k + 1) == if ps[k] == RegionalIndicator then 1 + RegionalRun(ps, k) else 0
  {
  }

  lemma RegionalJoins(ps: seq<Property>, k: nat)
    requires 0 < k < |ps| && Joins(ps, k)
    ensures ps[k] == RegionalIndicator ==> ps[k - 1] in {RegionalIndicator, Prepend}
  {
    hide PictographicZwj;
  }

  lemma ZwjStep(ps: seq<Property>, k: nat)
    requires k < |ps|
    ensures PictographicZwj(ps, k + 1) <==> ps[k] == Zwj && PictographicTail(ps, k)
  {
    hide PictographicTail;
  }

  // ----- the theorem

  lemma OffsetsAdvance(tab: Table, text: bytes, start: nat, k: nat)
    requires start <= |text| && k < |Properties(tab, text, start)|
    ensures var offs := Offsets(tab, text, start);
            && offs[k] < |text|
            && offs[k + 1] == NextCodepoint(text, offs[k]).end
            && Properties(tab, text, start)[k] == tab(NextCodepoint(text, offs[k]).value)
    decreases |text| - start
  {
    hide NextCodepoint;
    if k > 0 {
      OffsetsAdvance(tab, text, NextCodepoint(text, start).end, k - 1);
    }
  }

  lemma OffsetsEnd(tab: Table, text: bytes, start: nat)
    requires start <= |text|
    ensures Offsets(tab, text, start)[|Properties(tab, text, start)|] == |text|
    decreases |text| - start
  {
    hide NextCodepoint;
    if start < |text| {
      OffsetsEnd(tab, text, NextCodepoint(text, start).end);
    }
  }

  /** The next code point the rules put a boundary before, or the end of the text. */
  ghost function RuleBreak(ps: seq<Property>, k: nat): (e: nat)
    requires 0 < k <= |ps|
    ensures k <= e <= |ps|
    ensures forall j :: k <= j < e ==> Joins(ps, j)
    ensures e < |ps| ==> !Joins(ps, e)
    decreases |ps| - k
  {
    if k == |ps| || !Joins(ps, k) then k else RuleBreak(ps, k + 1)
  }

  /** A scan that tracks the look-back stops where the rules stop. */
  lemma {:induction false} ScanFindsRuleBreak(tab: Table, text: bytes, start: nat, k: nat, scan: Scan)
    requires start <= |text| && 0 < k <= |Properties(tab, text, start)|
    requires Tracks(scan, Properties(tab, text, start), k)
    ensures var ps, offs := Properties(tab, text, start), Offsets(tab, text, start);
            BreakFrom(tab, text, offs[k], scan) == offs[RuleBreak(ps, k)]
    decreases |Properties(tab, text, start)| - k
  {
    hide NextCodepoint, NoBreak, Tracks, Properties, Offsets;
    var ps, offs := Properties(tab, text, start), Offsets(tab, text, start);
    if k == |ps| {
      OffsetsEnd(tab, text, start);
    } else {
      OffsetsAdvance(tab, text, start, k);
      TracksDecide(scan, ps, k);
      if Joins(ps, k) {
        AdvanceTracks(scan, ps, k);
        ScanFindsRuleBreak(tab, text, start, k + 1, Advance(scan, ps[k]));
      }
    }
  }

  lemma TracksDecide(scan: Scan, ps: seq<Property>, k: nat)
    requires 0 < k < |ps| && Tracks(scan, ps, k)
    ensures NoBreak(scan.previous, ps[k], scan.zwjAfterPictographic, scan.regional) == Joins(ps, k)
  {
    NoBreakIsJoins(ps, k);
  }

  /** From a boundary of the rules, `next_break` finds the next one. */
  lemma NextBreakIsRuleBreak(tab: Table, text: bytes, start: nat, k: nat)
    requires start <= |text| && k < |Properties(tab, text, start)| && RuleStart(Properties(tab, text, start), k)
    ensures var ps, offs := Properties(tab, text, start), Offsets(tab, text, start);
            NextBreak(tab, text, offs[k]) == offs[RuleBreak(ps, k + 1)]
  {
    hide NextCodepoint, Properties, Offsets, Joins, Tracks, RuleBreak, BreakFrom;
    var ps := Properties(tab, text, start);
    OffsetsAdvance(tab, text, start, k);
    StartTracks(ps, k);
    ScanFindsRuleBreak(tab, text, start, k + 1, StartScan(ps[k]));
  }

  lemma NextStarts(ps: seq<Property>, offs: seq<nat>, k: nat)
    requires |offs| == |ps| + 1 && k <= |ps|
    ensures RuleStarts(ps, offs, k)
         == if k == |ps| then []
            else (if RuleStart(ps, k) then [offs[k]] else []) + RuleStarts(ps, offs, k + 1)
  {
    hide RuleStart;
  }

  lemma NextClusterStart(tab: Table, text: bytes, start: nat)
    requires start <= |text|
    ensures ClusterStarts(tab, text, start)
         == if start == |text| then [] else [start] + ClusterStarts(tab, text, NextBreak(tab, text, start))
  {
    hide NextBreak;
  }

  lemma RuleStartsSkip(ps: seq<Property>, offs: seq<nat>, k: nat)
    requires |offs| == |ps| + 1 && 0 < k <= |ps|
    ensures RuleStarts(ps, offs, k) == RuleStarts(ps, offs, RuleBreak(ps, k))
    decreases |ps| - k
  {
    hide Joins;
    if k < |ps| && Joins(ps, k) {
      RuleStartsSkip(ps, offs, k + 1);
    }
  }

  lemma {:induction false} StartsFollowRulesFrom(tab: Table, text: bytes, k: nat)
    requires k <= |Properties(tab, text, 0)|
    requires k == |Properties(tab, text, 0)| || RuleStart(Properties(tab, text, 0), k)
    ensures var ps, offs := Properties(tab, text, 0), Offsets(tab, text, 0);
            ClusterStarts(tab, text, offs[k]) == RuleStarts(ps, offs, k)
    decreases |Properties(tab, text, 0)| - k
  {
    hide NextCodepoint, Properties, Offsets, Joins, NextBreak, RuleStarts, RuleBreak, ClusterStarts;
    var ps, offs := Properties(tab, text, 0), Offsets(tab, text, 0);
    NextStarts(ps, offs, k);
    NextClusterStart(tab, text, offs[k]);
    if k == |ps| {
      OffsetsEnd(tab, text, 0);
    } else {
      OffsetsAdvance(tab, text, 0, k);
      NextBreakIsRuleBreak(tab, text, 0, k);
      StartsFollowRulesFrom(tab, text, RuleBreak(ps, k + 1));
      RuleStartsSkip(ps, offs, k + 1);
    }
  }

  /** Where the piece that starts at starts[i] ends. */
  function EndOf(text: bytes, starts: seq<nat>, i: nat): nat
    requires i < |starts|
  {
    if i + 1 < |starts| then starts[i + 1] else |text|
  }

  /** The pieces of `segment` are the slices between its starts. */
  lemma {:induction false} PiecesAreSlices(tab: Table, text: bytes, start: nat, i: nat)
    requires start <= |text| && i < |ClusterStarts(tab, text, start)|
    ensures var starts, pieces := ClusterStarts(tab, text, start), ClustersFrom(tab, text, start);
            && |pieces| == |starts| && starts[i] <= EndOf(text, starts, i) <= |text|
            && pieces[i] == text[starts[i]..EndOf(text, starts, i)]
    decreases |text| - start
  {
    hide NextBreak;
    var end := NextBreak(tab, text, start);
    NextStart(tab, text, end);
    if i > 0 {
      PiecesAreSlices(tab, text, end, i - 1);
    } else if end < |text| {
      PiecesAreSlices(tab, text, end, 0);
    }
  }

  lemma NextStart(tab: Table, text: bytes, start: nat)
    requires start <= |text|
    ensures var starts, pieces := ClusterStarts(tab, text, start), ClustersFrom(tab, text, start);
            if start == |text| then starts == [] && pieces == []
            else starts != [] && starts[0] == start
  {
    hide NextBreak;
  }

  /**
   * `segment` cuts every byte string exactly where the rules, with unlimited look-back, do: its pieces
   * are the slices between the boundaries of the rules.
   */
  lemma SegmentFollowsRules(tab: Table, text: bytes)
    ensures var starts := RuleStarts(Properties(tab, text, 0), Offsets(tab, text, 0), 0);
            var pieces := ClustersFrom(tab, text, 0);
            && ClusterStarts(tab, text, 0) == starts
            && |pieces| == |starts|
            && forall i :: 0 <= i < |pieces| ==>
                 starts[i] <= EndOf(text, starts, i) <= |text| && pieces[i] == text[starts[i]..EndOf(text, starts, i)]
  {
    hide ClusterStarts, ClustersFrom, RuleStarts, Properties, Offsets;
    StartsFollowRulesFrom(tab, text, 0);
    SameNumber(tab, text, 0);
    var starts := ClusterStarts(tab, text, 0);
    forall i | 0 <= i < |starts|
      ensures starts[i] <= EndOf(text, starts, i) <= |text|
      ensures ClustersFrom(tab, text, 0)[i] == text[starts[i]..EndOf(text, starts, i)]
    {
      PiecesAreSlices(tab, text, 0, i);
    }
  }

  lemma {:induction false} SameNumber(tab: Table, text: bytes, start: nat)
    requires start <= |text|
    ensures |ClusterStarts(tab, text, start)| == |ClustersFrom(tab, text, start)|
    decreases |text| - start
  {
    hide NextBreak;
    if start < |text| {
      SameNumber(tab, text, NextBreak(tab, text, start));
    }
  }

  /** The clusters are not empty and lose nothing. */
  lemma {:induction false} SegmentPartitions(tab: Table, text: bytes, start: nat)
    requires start <= |text|
    ensures Flatten(ClustersFrom(tab, text, start)) == text[start..]
    ensures forall piece <- ClustersFrom(tab, text, start) :: piece != []
    decreases |text| - start
  {
    hide NextBreak;
    if start < |text| {
      var end := NextBreak(tab, text, start);
      SegmentPartitions(tab, text, end);
      assert text[start..] == text[start..end] + text[end..];
    }
  }
}
