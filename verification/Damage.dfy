/** The dirty regions of TTyTk-Damage, kept in a canonical form. */
module Damages {

  /** The cells first..last of one row. */
  datatype Region = Region(row: nat, first: nat, last: nat)

  /** One more than the largest `std::size_t`. */
  const SIZE_MODULUS: nat := 0x1_0000_0000_0000_0000

  const SIZE_MAX: nat := SIZE_MODULUS - 1

  /** `last + 1` in `std::size_t`. */
  function Next(last: nat): nat {
    (last + 1) % SIZE_MODULUS
  }

  predicate Holds(r: Region, row: nat, col: nat) {
    r.row == row && r.first <= col <= r.last
  }

  ghost predicate Covers(rs: seq<Region>, row: nat, col: nat) {
    exists i :: 0 <= i < |rs| && Holds(rs[i], row, col)
  }

  /** a comes before b with at least one clean cell, or a row boundary, between them. */
  predicate Apart(a: Region, b: Region) {
    a.row < b.row || (a.row == b.row && a.last + 1 < b.first)
  }

  predicate RegionOk(r: Region) {
    r.first <= r.last <= SIZE_MAX
  }

  ghost predicate AllOk(rs: seq<Region>) {
    forall i :: 0 <= i < |rs| ==> RegionOk(rs[i])
  }

  /** No region reaches the largest column there can be. */
  predicate Inside(rs: seq<Region>) {
    forall i :: 0 <= i < |rs| ==> rs[i].last < SIZE_MAX
  }

  /** Non-empty regions in order, no two of them touching. */
  ghost predicate Canonical(rs: seq<Region>) {
    && AllOk(rs)
    && forall i, j :: 0 <= i < j < |rs| ==> Apart(rs[i], rs[j])
  }

  // ----- the canonical form is unique

  ghost predicate SameCells(a: seq<Region>, b: seq<Region>) {
    forall row: nat, col: nat :: Covers(a, row, col) <==> Covers(b, row, col)
  }

  /** In a canonical list the first cell of all is the first region's first. */
  lemma FirstCell(rs: seq<Region>, row: nat, col: nat)
    requires Canonical(rs) && rs != [] && Covers(rs, row, col)
    ensures rs[0].row < row || (rs[0].row == row && rs[0].first <= col)
  {
  }

  lemma CoversFirst(rs: seq<Region>, col: nat)
    requires rs != [] && rs[0].first <= col <= rs[0].last
    ensures Covers(rs, rs[0].row, col)
  {
    assert Holds(rs[0], rs[0].row, col);
  }

  /** The cell after the first region is clean. */
  lemma GapAfterFirst(rs: seq<Region>)
    requires Canonical(rs) && rs != []
    ensures !Covers(rs, rs[0].row, rs[0].last + 1)
  {
  }

  lemma FirstRegionsEqual(a: seq<Region>, b: seq<Region>)
    requires Canonical(a) && Canonical(b) && SameCells(a, b) && a != [] && b != []
    ensures a[0] == b[0]
  {
    hide Covers;
    CoversFirst(a, a[0].first);
    CoversFirst(b, b[0].first);
    FirstCell(b, a[0].row, a[0].first);
    FirstCell(a, b[0].row, b[0].first);
    assert a[0].row == b[0].row && a[0].first == b[0].first;
    GapAfterFirst(a);
    GapAfterFirst(b);
    if a[0].last < b[0].last {
      CoversFirst(b, a[0].last + 1);
    } else if b[0].last < a[0].last {
      CoversFirst(a, b[0].last + 1);
    }
  }

  lemma CoversSplit(rs: seq<Region>, row: nat, col: nat)
    requires rs != []
    ensures Covers(rs, row, col) <==> Holds(rs[0], row, col) || Covers(rs[1..], row, col)
  {
    if Covers(rs, row, col) {
      var i :| 0 <= i < |rs| && Holds(rs[i], row, col);
      if i > 0 {
        assert Holds(rs[1..][i - 1], row, col);
      }
    }
    if Covers(rs[1..], row, col) {
      var i :| 0 <= i < |rs[1..]| && Holds(rs[1..][i], row, col);
      assert Holds(rs[i + 1], row, col);
    }
  }

  lemma FirstApart(rs: seq<Region>, row: nat, col: nat)
    requires Canonical(rs) && rs != []
    ensures Holds(rs[0], row, col) ==> !Covers(rs[1..], row, col)
  {
  }

  /** Two canonical lists with the same cells are the same list. */
  lemma {:induction false} CanonicalUnique(a: seq<Region>, b: seq<Region>)
    requires Canonical(a) && Canonical(b) && SameCells(a, b)
    ensures a == b
  {
    hide Covers;
    if a == [] || b == [] {
      if a != [] {
        CoversFirst(a, a[0].first);
        NothingCovered(a[0].row, a[0].first);
      }
      if b != [] {
        CoversFirst(b, b[0].first);
        NothingCovered(b[0].row, b[0].first);
      }
    } else {
      FirstRegionsEqual(a, b);
      forall row: nat, col: nat
        ensures Covers(a[1..], row, col) <==> Covers(b[1..], row, col)
      {
        CoversSplit(a, row, col);
        CoversSplit(b, row, col);
        FirstApart(a, row, col);
        FirstApart(b, row, col);
      }
      CanonicalUnique(a[1..], b[1..]);
    }
  }

  lemma NothingCovered(row: nat, col: nat)
    ensures !Covers([], row, col)
  {
  }

  // ----- sorting and merging

  predicate NotAfter(a: Region, b: Region) {
    a.row < b.row || (a.row == b.row && a.first <= b.first)
  }

  ghost predicate Sorted(rs: seq<Region>) {
    forall i, j :: 0 <= i < j < |rs| ==> NotAfter(rs[i], rs[j])
  }

  /** The `std::sort` of `merge`; regions with the same start may come in any order. */
  method Sort(rs: seq<Region>) returns (sorted: seq<Region>)
    ensures Sorted(sorted) && multiset(sorted) == multiset(rs)
  {
    hide Sorted, NotAfter;
    sorted := [];
    SortedNothing();
    for i := 0 to |rs|
      invariant Sorted(sorted) && multiset(sorted) == multiset(rs[..i])
    {
      var k := 0;
      while k < |sorted| && NotAfter(sorted[k], rs[i])
        invariant 0 <= k <= |sorted|
        invariant forall j :: 0 <= j < k ==> NotAfter(sorted[j], rs[i])
      {
        k := k + 1;
      }
      SortedInsert(sorted, rs[i], k);
      assert rs[..i + 1] == rs[..i] + [rs[i]];
      sorted := sorted[..k] + [rs[i]] + sorted[k..];
    }
    assert rs[..|rs|] == rs;
  }

  lemma SortedNothing()
    ensures Sorted([])
  {
  }

  lemma SortedInsert(rs: seq<Region>, r: Region, k: nat)
    requires Sorted(rs) && k <= |rs|
    requires forall j :: 0 <= j < k ==> NotAfter(rs[j], r)
    requires k < |rs| ==> !NotAfter(rs[k], r)
    ensures Sorted(rs[..k] + [r] + rs[k..])
    ensures multiset(rs[..k] + [r] + rs[k..]) == multiset(rs) + multiset{r}
  {
    assert rs == rs[..k] + rs[k..];
    SortedAround(rs, r, k);
  }

  lemma SortedAround(rs: seq<Region>, r: Region, k: nat)
    requires Sorted(rs) && k <= |rs|
    requires forall j :: 0 <= j < k ==> NotAfter(rs[j], r)
    requires k < |rs| ==> !NotAfter(rs[k], r)
    ensures Sorted(rs[..k] + [r] + rs[k..])
  {
    var grown := rs[..k] + [r] + rs[k..];
    forall i, j | 0 <= i < j < |grown|
      ensures NotAfter(grown[i], grown[j])
    {
      var a, b := if i <= k then i else i - 1, if j <= k then j else j - 1;
      assert i != k ==> grown[i] == rs[a];
      assert j != k ==> grown[j] == rs[b];
      assert i == k && b > k ==> NotAfter(rs[k], rs[b]);
    }
  }

  lemma SortedCovers(a: seq<Region>, b: seq<Region>)
    requires multiset(a) == multiset(b) && AllOk(a)
    ensures AllOk(b) && SameCells(a, b)
  {
    SameElements(a, b);
    SameElements(b, a);
  }

  lemma SameElements(a: seq<Region>, b: seq<Region>)
    requires multiset(a) == multiset(b)
    ensures AllOk(a) ==> AllOk(b)
    ensures forall row: nat, col: nat :: Covers(a, row, col) ==> Covers(b, row, col)
  {
    forall i | 0 <= i < |b|
      ensures b[i] in a
    {
      assert b[i] in multiset(b);
    }
    forall i | 0 <= i < |a|
      ensures a[i] in b
    {
      assert a[i] in multiset(a);
    }
  }

  /** One turn of the merging loop. */
  function Add(out: seq<Region>, r: Region): seq<Region> {
    var n := |out|;
    if n > 0 && out[n - 1].row == r.row && r.first <= Next(out[n - 1].last)
    then out[..n - 1] + [out[n - 1].(last := if out[n - 1].last < r.last then r.last else out[n - 1].last)]
    else out + [r]
  }

  /** The last region reaches the largest column, so the comparison with `last + 1` compares with 0. */
  predicate Wraps(out: seq<Region>, r: Region) {
    out != [] && out[|out| - 1].row == r.row && out[|out| - 1].last == SIZE_MAX && r.first > 0
  }

  /** Adding a region that starts no earlier than the last one keeps the list canonical unless `last + 1` wraps. */
  lemma AddKeepsCanonical(out: seq<Region>, r: Region)
    requires Canonical(out) && RegionOk(r) && (out != [] ==> NotAfter(out[|out| - 1], r))
    ensures Canonical(Add(out, r)) <==> !Wraps(out, r)
  {
    var n, added := |out|, Add(out, r);
    if Wraps(out, r) {
      assert !Apart(added[n - 1], added[n]);
    }
  }

  lemma AddCovers(out: seq<Region>, r: Region, row: nat, col: nat)
    requires AllOk(out) && RegionOk(r) && (out != [] ==> NotAfter(out[|out| - 1], r))
    ensures Covers(Add(out, r), row, col) <==> Covers(out, row, col) || Holds(r, row, col)
  {
    var n, added := |out|, Add(out, r);
    var m := |added|;
    if Covers(added, row, col) {
      var i :| 0 <= i < m && Holds(added[i], row, col);
      if i < m - 1 || m == n {
        assert i < m - 1 ==> added[i] == out[i];
        assert i < m - 1 ==> Holds(out[i], row, col);
        assert i == m - 1 ==> Holds(out[n - 1], row, col) || Holds(r, row, col);
      }
    }
    if Covers(out, row, col) {
      var i :| 0 <= i < n && Holds(out[i], row, col);
      assert Holds(added[i], row, col);
    }
    if Holds(r, row, col) {
      assert Holds(added[m - 1], row, col);
    }
  }

  /** The merging loop, from what it has put out so far. */
  function MergedFrom(out: seq<Region>, rs: seq<Region>): seq<Region>
    decreases |rs|
  {
    if rs == [] then out else MergedFrom(Add(out, rs[0]), rs[1..])
  }

  /** `merge`: the loop over the regions in some order that the sort may leave them in. */
  ghost predicate Merges(rs: seq<Region>, out: seq<Region>) {
    exists sorted :: Sorted(sorted) && multiset(sorted) == multiset(rs) && out == MergedFrom([], sorted)
  }

  // ----- what merging leaves

  /** No region would be merged into the one before it. */
  predicate Settled(rs: seq<Region>) {
    forall i :: 0 < i < |rs| ==> !(rs[i].row == rs[i - 1].row && rs[i].first <= Next(rs[i - 1].last))
  }

  /** The output of the loop so far, when it goes on with r. */
  ghost predicate Between(out: seq<Region>, r: Region) {
    AllOk(out) && Sorted(out) && Settled(out) && (out != [] ==> NotAfter(out[|out| - 1], r))
  }

  lemma AddKeepsOrder(out: seq<Region>, r: Region)
    requires Between(out, r) && RegionOk(r)
    ensures var added := Add(out, r);
            && added != [] && AllOk(added) && Sorted(added) && Settled(added)
            && added[|added| - 1].row == r.row && added[|added| - 1].first <= r.first
            && (Inside(out) && r.last < SIZE_MAX ==> Inside(added))
  {
  }

  lemma {:induction false} MergedKeeps(out: seq<Region>, rs: seq<Region>)
    requires AllOk(rs) && Sorted(rs)
    requires AllOk(out) && Sorted(out) && Settled(out)
    requires out != [] && rs != [] ==> NotAfter(out[|out| - 1], rs[0])
    ensures var merged := MergedFrom(out, rs);
            && AllOk(merged) && Sorted(merged) && Settled(merged)
            && (forall row: nat, col: nat ::
                  Covers(merged, row, col) <==> Covers(out, row, col) || Covers(rs, row, col))
    decreases |rs|
  {
    hide Covers, Add, Settled, AllOk, Holds;
    if rs == [] {
      forall row: nat, col: nat ensures !Covers(rs, row, col) {
        NothingCovered(row, col);
      }
    } else {
      RestOk(rs);
      AddKeepsOrder(out, rs[0]);
      var added := Add(out, rs[0]);
      MergedKeeps(added, rs[1..]);
      forall row: nat, col: nat
        ensures Covers(MergedFrom(out, rs), row, col) <==> Covers(out, row, col) || Covers(rs, row, col)
      {
        AddCovers(out, rs[0], row, col);
        CoversSplit(rs, row, col);
      }
    }
  }

  lemma RestOk(rs: seq<Region>)
    requires AllOk(rs) && Sorted(rs) && rs != []
    ensures RegionOk(rs[0]) && AllOk(rs[1..]) && Sorted(rs[1..])
  {
  }

  /** Settled regions that stay inside are canonical. */
  lemma SettledIsCanonical(rs: seq<Region>)
    requires AllOk(rs) && Sorted(rs) && Settled(rs) && Inside(rs)
    ensures Canonical(rs)
  {
    forall i, j | 0 <= i < j < |rs|
      ensures Apart(rs[i], rs[j])
    {
      assert Apart(rs[i], rs[i + 1]);
      assert NotAfter(rs[i], rs[j]);
      assert j > i + 1 ==> NotAfter(rs[i + 1], rs[j]);
    }
  }

  /** What `merge` leaves, whatever the order of the sort: the same cells, in order and settled. */
  lemma MergesKeeps(rs: seq<Region>, out: seq<Region>)
    requires AllOk(rs) && Merges(rs, out)
    ensures AllOk(out) && Sorted(out) && Settled(out) && SameCells(out, rs)
    ensures Inside(rs) ==> Canonical(out)
  {
    hide Covers, MergedFrom, Canonical;
    var sorted :| Sorted(sorted) && multiset(sorted) == multiset(rs) && out == MergedFrom([], sorted);
    SortedCovers(rs, sorted);
    MergedKeeps([], sorted);
    forall row: nat, col: nat ensures !Covers([], row, col) {
      NothingCovered(row, col);
    }
    InsideByCells(out, rs);
    if Inside(rs) {
      SettledIsCanonical(out);
    }
  }

  /** Reaching the largest column shows in the cells. */
  lemma InsideByCells(a: seq<Region>, b: seq<Region>)
    requires AllOk(a) && AllOk(b) && SameCells(a, b)
    ensures Inside(a) <==> Inside(b)
  {
    EdgeCell(a);
    EdgeCell(b);
    assert forall row: nat :: Covers(a, row, SIZE_MAX) <==> Covers(b, row, SIZE_MAX);
  }

  lemma EdgeCell(rs: seq<Region>)
    requires AllOk(rs)
    ensures Inside(rs) <==> forall row: nat :: !Covers(rs, row, SIZE_MAX)
  {
    if !Inside(rs) {
      var i :| 0 <= i < |rs| && rs[i].last == SIZE_MAX;
      assert Holds(rs[i], rs[i].row, SIZE_MAX);
      assert Covers(rs, rs[i].row, SIZE_MAX);
    } else {
      forall row: nat
        ensures !Covers(rs, row, SIZE_MAX)
      {
        assert forall i :: 0 <= i < |rs| ==> !Holds(rs[i], row, SIZE_MAX);
      }
    }
  }

  // ----- the class

  /** The region a call of `mark` pushes. */
  function Marking(row: nat, first: nat, last: nat): Region {
    if first > last then Region(row, last, first) else Region(row, first, last)
  }

  class Damage {
    var dirty: seq<Region>
    /** The regions marked since the last `clear`. */
    ghost var marks: seq<Region>

    /**
     * The regions cover exactly the marked cells, in order, and none would merge into the one before;
     * with no cell in the largest column they are canonical.
     */
    ghost predicate Valid()
      reads this
    {
      && AllOk(marks) && AllOk(dirty) && Sorted(dirty) && Settled(dirty)
      && SameCells(dirty, marks)
      && (Inside(marks) ==> Canonical(dirty))
    }

    constructor ()
      ensures Valid() && dirty == [] && marks == []
    {
      dirty, marks := [], [];
    }

    method Clear()
      modifies this
      ensures Valid() && dirty == [] && marks == []
    {
      dirty, marks := [], [];
    }

    /** `mark`. */
    method Mark(row: nat, first: nat, last: nat)
      requires Valid() && first <= SIZE_MAX && last <= SIZE_MAX
      modifies this
      ensures Valid() && marks == old(marks) + [Marking(row, first, last)]
      ensures Merges(old(dirty) + [Marking(row, first, last)], dirty)
    {
      hide *;
      MarkingIs(row, first, last);
      MarkStep(dirty, marks, Marking(row, first, last));
      var lo, hi := first, last;
      if first > last {
        lo, hi := last, first;
      }
      dirty := dirty + [Region(row, lo, hi)];
      marks := marks + [Region(row, lo, hi)];
      Merge();
    }

    lemma MarkStep(dirty: seq<Region>, marks: seq<Region>, r: Region)
      requires this.dirty == dirty && this.marks == marks && Valid() && RegionOk(r)
      ensures AllOk(dirty + [r]) && AllOk(marks + [r]) && SameCells(dirty + [r], marks + [r])
    {
      MarksAlike(dirty, marks, r);
    }

    /** `merge`. */
    method Merge()
      requires AllOk(dirty) && AllOk(marks) && SameCells(dirty, marks)
      modifies this`dirty
      ensures Valid() && Merges(old(dirty), dirty)
    {
      hide Covers, Canonical, Merges, MergedFrom, Settled, Sorted;
      ghost var was := dirty;
      var sorted := Sort(dirty);
      SortedCovers(dirty, sorted);
      dirty := MergeSorted(sorted);
      MergesBy(was, sorted);
      MergesKeeps(was, dirty);
      InsideByCells(was, marks);
    }
  }

  lemma MarkingIs(row: nat, first: nat, last: nat)
    ensures Marking(row, first, last) == if first > last then Region(row, last, first) else Region(row, first, last)
    ensures first <= SIZE_MAX && last <= SIZE_MAX ==> RegionOk(Marking(row, first, last))
  {
  }

  lemma MergesBy(rs: seq<Region>, sorted: seq<Region>)
    requires Sorted(sorted) && multiset(sorted) == multiset(rs)
    ensures Merges(rs, MergedFrom([], sorted))
  {
    hide MergedFrom, Sorted;
  }

  lemma CoversAppend(rs: seq<Region>, r: Region, row: nat, col: nat)
    ensures Covers(rs + [r], row, col) <==> Covers(rs, row, col) || Holds(r, row, col)
  {
    if Covers(rs, row, col) {
      var i :| 0 <= i < |rs| && Holds(rs[i], row, col);
      assert Holds((rs + [r])[i], row, col);
    }
    assert (rs + [r])[|rs|] == r;
  }

  lemma MarksAlike(a: seq<Region>, b: seq<Region>, r: Region)
    requires SameCells(a, b)
    ensures SameCells(a + [r], b + [r])
  {
    hide Covers, Holds;
    forall row: nat, col: nat
      ensures Covers(a + [r], row, col) <==> Covers(b + [r], row, col)
    {
      CoversAppend(a, r, row, col);
      CoversAppend(b, r, row, col);
    }
  }

  /** The merging loop. */
  method MergeSorted(sorted: seq<Region>) returns (out: seq<Region>)
    ensures out == MergedFrom([], sorted)
  {
    hide Add;
    out := [];
    for i := 0 to |sorted|
      invariant MergedFrom(out, sorted[i..]) == MergedFrom([], sorted)
    {
      assert sorted[i..][1..] == sorted[i + 1..];
      out := Add(out, sorted[i]);
    }
    assert sorted[|sorted|..] == [];
  }

  // ----- runs of marks

  /** The regions a run of marks since `clear` can leave. */
  ghost predicate AfterMarks(marks: seq<Region>, dirty: seq<Region>) {
    if marks == [] then dirty == []
    else
      var front, r := marks[..|marks| - 1], marks[|marks| - 1];
      exists before :: AfterMarks(front, before) && Merges(before + [r], dirty)
  }

  lemma {:induction false} MarksKeep(marks: seq<Region>, dirty: seq<Region>)
    requires AllOk(marks) && AfterMarks(marks, dirty)
    ensures AllOk(dirty) && Sorted(dirty) && Settled(dirty) && SameCells(dirty, marks)
    ensures Inside(marks) ==> Canonical(dirty)
  {
    hide Covers, Merges;
    if marks != [] {
      hide Canonical;
      var front, r := marks[..|marks| - 1], marks[|marks| - 1];
      var before :| AfterMarks(front, before) && Merges(before + [r], dirty);
      MarksKeep(front, before);
      MarksAlike(before, front, r);
      assert front + [r] == marks;
      MergesKeeps(before + [r], dirty);
      InsideByCells(before + [r], marks);
    }
  }

  /** r in its place among sorted regions, after those that start with it. */
  function Placed(rs: seq<Region>, r: Region): (placed: seq<Region>) {
    if rs == [] || !NotAfter(rs[0], r) then [r] + rs else [rs[0]] + Placed(rs[1..], r)
  }

  lemma {:induction false} PlacedIsSorted(rs: seq<Region>, r: Region)
    requires Sorted(rs)
    ensures Sorted(Placed(rs, r)) && multiset(Placed(rs, r)) == multiset(rs + [r])
    decreases |rs|
  {
    hide Sorted;
    if rs == [] || !NotAfter(rs[0], r) {
      assert multiset([r] + rs) == multiset(rs + [r]);
      SortedCons(r, rs);
    } else {
      SortedRest(rs);
      PlacedIsSorted(rs[1..], r);
      assert rs + [r] == [rs[0]] + (rs[1..] + [r]);
      PlacedFirst(rs[1..], r);
      if rs[1..] != [] {
        SortedPair(rs);
      }
      SortedCons(rs[0], Placed(rs[1..], r));
    }
  }

  lemma SortedCons(r: Region, rs: seq<Region>)
    requires Sorted(rs) && (rs != [] ==> NotAfter(r, rs[0]))
    ensures Sorted([r] + rs)
  {
  }

  lemma SortedRest(rs: seq<Region>)
    requires Sorted(rs) && rs != []
    ensures Sorted(rs[1..])
  {
  }

  lemma SortedPair(rs: seq<Region>)
    requires Sorted(rs) && |rs| > 1
    ensures NotAfter(rs[0], rs[1..][0])
  {
  }

  lemma PlacedFirst(rs: seq<Region>, r: Region)
    ensures Placed(rs, r) != [] && (Placed(rs, r)[0] == r || (rs != [] && Placed(rs, r)[0] == rs[0]))
  {
  }

  /** Some sort puts r in its place. */
  lemma MergesPlaced(rs: seq<Region>, r: Region)
    requires Sorted(rs)
    ensures Merges(rs + [r], MergedFrom([], Placed(rs, r)))
  {
    hide MergedFrom, Sorted, Merges, Placed;
    PlacedIsSorted(rs, r);
    MergesBy(rs + [r], Placed(rs, r));
  }

  /** Every run of marks leaves some regions. */
  lemma {:induction false} SomeOutcome(marks: seq<Region>) returns (dirty: seq<Region>)
    requires AllOk(marks)
    ensures AfterMarks(marks, dirty)
  {
    hide Merges, MergedFrom, Placed;
    dirty := [];
    if marks != [] {
      var front, r := marks[..|marks| - 1], marks[|marks| - 1];
      var before := SomeOutcome(front);
      MarksKeep(front, before);
      MergesPlaced(before, r);
      dirty := MergedFrom([], Placed(before, r));
    }
  }

  // ----- the exact condition

  lemma AddSettled(out: seq<Region>, r: Region)
    requires Settled(out + [r])
    ensures Add(out, r) == out + [r]
  {
    assert (out + [r])[|out|] == r;
    assert out != [] ==> (out + [r])[|out| - 1] == out[|out| - 1];
  }

  /** Merging settled regions, after others that end the same way, keeps them. */
  lemma {:induction false} MergedSettled(out: seq<Region>, rs: seq<Region>)
    requires Settled(out + rs)
    ensures MergedFrom(out, rs) == out + rs
    decreases |rs|
  {
    hide Add;
    if rs == [] {
      assert out + rs == out;
    } else {
      var r := rs[0];
      assert (out + [r]) + rs[1..] == out + rs;
      assert forall i :: 0 <= i < |out + [r]| ==> (out + [r])[i] == (out + rs)[i];
      AddSettled(out, r);
      MergedSettled(out + [r], rs[1..]);
    }
  }

  /** Marking the last cell of a row again changes the regions, though not the cells. */
  lemma {:induction false} EdgeAgain(out: seq<Region>, rs: seq<Region>, row: nat)
    requires AllOk(out + rs) && Sorted(out + rs) && Settled(out + rs)
    requires forall i :: 0 <= i < |out| ==> out[i].row <= row
    requires (out != [] && out[|out| - 1].row == row) || Covers(rs, row, SIZE_MAX)
    ensures MergedFrom(out, Placed(rs, Region(row, SIZE_MAX, SIZE_MAX))) != out + rs
    decreases |rs|
  {
    hide Add, Covers, Settled, MergedFrom;
    var edge := Region(row, SIZE_MAX, SIZE_MAX);
    assert forall i :: 0 <= i < |rs| ==> rs[i] == (out + rs)[|out| + i];
    assert out != [] ==> (out + rs)[|out| - 1] == out[|out| - 1];
    if rs == [] || !NotAfter(rs[0], edge) {
      NotCoveredLater(rs, row);
      EdgeChanges(out, rs, row);
    } else {
      var r := rs[0];
      assert (out + [r]) + rs[1..] == out + rs;
      SettledPrefix(out + [r], rs[1..]);
      AddSettled(out, r);
      CoversSplit(rs, row, SIZE_MAX);
      EdgeAgain(out + [r], rs[1..], row);
      PlacedNext(rs, edge);
      MergedNext(out, Placed(rs, edge));
    }
  }

  lemma PlacedNext(rs: seq<Region>, r: Region)
    requires rs != [] && NotAfter(rs[0], r)
    ensures Placed(rs, r) != [] && Placed(rs, r)[0] == rs[0] && Placed(rs, r)[1..] == Placed(rs[1..], r)
  {
  }

  lemma MergedNext(out: seq<Region>, rs: seq<Region>)
    requires rs != []
    ensures MergedFrom(out, rs) == MergedFrom(Add(out, rs[0]), rs[1..])
  {
    hide Add;
  }

  lemma NotCoveredLater(rs: seq<Region>, row: nat)
    requires Sorted(rs) && (rs != [] ==> rs[0].row > row)
    ensures !Covers(rs, row, SIZE_MAX)
  {
    forall i | 0 <= i < |rs|
      ensures rs[i].row > row
    {
      assert i > 0 ==> NotAfter(rs[0], rs[i]);
    }
  }

  lemma SettledPrefix(a: seq<Region>, b: seq<Region>)
    requires Settled(a + b)
    ensures Settled(a) && Settled(b)
  {
    assert forall i :: 0 <= i < |a| ==> (a + b)[i] == a[i];
    assert forall i :: 0 <= i < |b| ==> (a + b)[|a| + i] == b[i];
    forall i | 0 < i < |b|
      ensures !(b[i].row == b[i - 1].row && b[i].first <= Next(b[i - 1].last))
    {
      assert (a + b)[|a| + i] == b[i] && (a + b)[|a| + i - 1] == b[i - 1];
    }
  }

  lemma SettledJoin(a: seq<Region>, b: seq<Region>)
    requires Settled(a) && Settled(b)
    requires a != [] && b != [] ==> a[|a| - 1].row != b[0].row
    ensures Settled(a + b)
  {
    forall i | 0 < i < |a + b|
      ensures !((a + b)[i].row == (a + b)[i - 1].row && (a + b)[i].first <= Next((a + b)[i - 1].last))
    {
      assert i < |a| ==> (a + b)[i] == a[i];
      assert i > |a| ==> (a + b)[i] == b[i - |a|] && (a + b)[i - 1] == b[i - |a| - 1];
    }
  }

  lemma EdgeChanges(out: seq<Region>, rs: seq<Region>, row: nat)
    requires AllOk(out + rs) && Sorted(out + rs) && Settled(out + rs)
    requires rs != [] ==> rs[0].row > row
    requires out != [] && out[|out| - 1].row == row
    ensures MergedFrom(out, [Region(row, SIZE_MAX, SIZE_MAX)] + rs) != out + rs
  {
    hide Settled, MergedFrom, Covers;
    var edge := Region(row, SIZE_MAX, SIZE_MAX);
    var added := Add(out, edge);
    assert ([edge] + rs)[0] == edge && ([edge] + rs)[1..] == rs;
    MergedNext(out, [edge] + rs);
    SettledPrefix(out, rs);
    OutOk(out, rs);
    AddKeepsOrder(out, edge);
    SettledJoin(added, rs);
    MergedSettled(added, rs);
    AddChanges(out, edge);
    DifferentFronts(added, out, rs);
  }

  lemma DifferentFronts<T>(a: seq<T>, b: seq<T>, rest: seq<T>)
    requires a != b
    ensures a + rest != b + rest
  {
    if |a| == |b| {
      var i :| 0 <= i < |a| && a[i] != b[i];
      assert (a + rest)[i] == a[i] && (b + rest)[i] == b[i];
    }
  }

  lemma OutOk(out: seq<Region>, rs: seq<Region>)
    requires AllOk(out + rs) && Sorted(out + rs)
    ensures AllOk(out) && Sorted(out)
  {
    assert forall i :: 0 <= i < |out| ==> out[i] == (out + rs)[i];
  }

  /** The last cell of a row is merged into nothing that holds it already. */
  lemma AddChanges(out: seq<Region>, edge: Region)
    requires AllOk(out) && edge.first == edge.last == SIZE_MAX
    ensures Add(out, edge) != out
  {
    assert out != [] && |Add(out, edge)| == |out| ==> Add(out, edge)[|out| - 1] != out[|out| - 1];
  }

  /** The regions depend on the marks through more than their cells. */
  lemma EdgeTellsMarksApart(marks: seq<Region>) returns (more: seq<Region>, a: seq<Region>, b: seq<Region>)
    requires AllOk(marks) && !Inside(marks)
    ensures AllOk(more) && SameCells(more, marks) && AfterMarks(marks, a) && AfterMarks(more, b) && a != b
  {
    hide Covers, MergedFrom, Placed, Merges, Canonical, Settled, Sorted, AfterMarks;
    EdgeCell(marks);
    var row: nat :| Covers(marks, row, SIZE_MAX);
    var edge := Region(row, SIZE_MAX, SIZE_MAX);
    a := SomeOutcome(marks);
    MarksKeep(marks, a);
    more := marks + [edge];
    b := MergedFrom([], Placed(a, edge));
    MergesPlaced(a, edge);
    OneMoreMark(marks, edge, a, b);
    assert [] + a == a;
    EdgeAgain([], a, row);
    forall r: nat, c: nat
      ensures Covers(more, r, c) <==> Covers(marks, r, c)
    {
      CoversAppend(marks, edge, r, c);
    }
  }

  lemma OneMoreMark(marks: seq<Region>, r: Region, before: seq<Region>, after: seq<Region>)
    requires AfterMarks(marks, before) && Merges(before + [r], after)
    ensures AfterMarks(marks + [r], after)
  {
    hide Merges;
    assert (marks + [r])[..|marks|] == marks;
  }

  /** Some run of marks with the cells of `marks` leaves the regions `dirty`. */
  ghost predicate Run(run: seq<Region>, marks: seq<Region>, dirty: seq<Region>) {
    AllOk(run) && SameCells(run, marks) && AfterMarks(run, dirty)
  }

  /** Any two runs of marks with these cells leave the same regions. */
  ghost predicate CellsDecide(marks: seq<Region>) {
    forall m, n, a, b :: Run(m, marks, a) && Run(n, marks, b) ==> a == b
  }

  /**
   * The regions depend only on the set of marked cells, whatever the order and grouping of the marks,
   * exactly when no cell is in the largest column there can be.
   */
  lemma RegionsDependOnCellsOnly(marks: seq<Region>)
    requires AllOk(marks)
    ensures CellsDecide(marks) <==> forall row: nat :: !Covers(marks, row, SIZE_MAX)
  {
    hide Covers, Canonical, Settled, Sorted, AfterMarks;
    EdgeCell(marks);
    if Inside(marks) {
      forall m, n, a, b | Run(m, marks, a) && Run(n, marks, b)
        ensures a == b
      {
        InsideByCells(m, marks);
        InsideByCells(n, marks);
        MarksKeep(m, a);
        MarksKeep(n, b);
        CanonicalUnique(a, b);
      }
    } else {
      var more, a, b := EdgeTellsMarksApart(marks);
      assert Run(marks, marks, a) && Run(more, marks, b);
    }
  }

  /** Two objects that were marked with the same cells, none of them in the largest column, report the same regions. */
  lemma SameCellsSameRegions(a: Damage, b: Damage)
    requires a.Valid() && b.Valid() && SameCells(a.marks, b.marks) && Inside(a.marks)
    ensures a.dirty == b.dirty && Canonical(a.dirty)
  {
    hide Covers, Canonical, Settled, Sorted;
    InsideByCells(a.marks, b.marks);
    assert SameCells(a.dirty, b.dirty);
    CanonicalUnique(a.dirty, b.dirty);
  }

  /** At the largest `size_t` the comparison wraps: a region there does not absorb what lies inside it. */
  lemma WrapBreaksMerging(row: nat)
    ensures Add([Region(row, 0, SIZE_MAX)], Region(row, 5, 5)) == [Region(row, 0, SIZE_MAX), Region(row, 5, 5)]
    ensures !Canonical(Add([Region(row, 0, SIZE_MAX)], Region(row, 5, 5)))
  {
    AddKeepsCanonical([Region(row, 0, SIZE_MAX)], Region(row, 5, 5));
  }
}
