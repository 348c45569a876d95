/** The greedy line wrap of TTyTk-TextLayout, with the width of a cluster left open. */
module TextLayout {
  import opened Bytes
  import opened Grapheme
  import opened GraphemeRules

  /** `layout::measure` of a string; the width tables are not part of this model. */
  type Measure = bytes -> nat

  function Total(clusters: seq<bytes>, measure: Measure): nat {
    if clusters == [] then 0 else Total(clusters[..|clusters| - 1], measure) + measure(clusters[|clusters| - 1])
  }

  /** Whether the next cluster starts a new line. */
  predicate Breaks(columns: nat, line: seq<bytes>, width: nat, w: nat) {
    columns > 0 && width + w > columns && line != []
  }

  /** The lines, as lists of clusters, when `line` is already begun. */
  function Group(clusters: seq<bytes>, measure: Measure, columns: nat, line: seq<bytes>, width: nat): seq<seq<bytes>>
    decreases |clusters|
  {
    if clusters == [] then (if line == [] then [] else [line])
    else
      var g, w := clusters[0], measure(clusters[0]);
      if Breaks(columns, line, width, w) then [line] + Group(clusters[1..], measure, columns, [g], w)
      else Group(clusters[1..], measure, columns, line + [g], width + w)
  }

  function FlattenEach(lines: seq<seq<bytes>>): seq<bytes> {
    seq(|lines|, i requires 0 <= i < |lines| => Flatten(lines[i]))
  }

  /** The clusters of the text, grouped into lines. */
  function Grouped(tab: Table, measure: Measure, text: bytes, columns: nat): seq<seq<bytes>> {
    Group(ClustersFrom(tab, text, 0), measure, columns, [], 0)
  }

  function WrapLines(tab: Table, measure: Measure, text: bytes, columns: nat): seq<bytes> {
    if text == [] then [[]] else FlattenEach(Grouped(tab, measure, text, columns))
  }

  /** `layout::wrap`. */
  method Wrap(tab: Table, measure: Measure, text: bytes, columns: nat) returns (out: seq<bytes>)
    ensures out == WrapLines(tab, measure, text, columns)
  {
    hide Flatten, Group, FlattenEach, ClustersFrom;
    var clusters := Segment(tab, text);
    SegmentPartitions(tab, text, 0);
    forall i | 0 <= i < |clusters|
      ensures clusters[i] != []
    {
      assert clusters[i] in ClustersFrom(tab, text, 0);
    }
    ClustersOfNothing(tab, text);
    FlattenEachOneMore([], []);
    out := [];
    var line: bytes, width := [], 0;
    ghost var all := Group(clusters, measure, columns, [], 0);
    ghost var begun: seq<bytes> := [];
    ghost var done: seq<seq<bytes>> := [];
    FlattenNothing();
    assert all[0..] == all && clusters[0..] == clusters;
    for i := 0 to |clusters|
      invariant out == FlattenEach(done) && line == Flatten(begun)
      invariant line == [] <==> begun == []
      invariant width >= 0
      invariant |done| <= |all| && done == all[..|done|]
      invariant Group(clusters[i..], measure, columns, begun, width) == all[|done|..]
    {
      var g := clusters[i];
      var w := measure(g);
      assert clusters[i..][1..] == clusters[i + 1..];
      GroupStep(clusters[i..], measure, columns, begun, width);
      FlattenOneMore(begun, g);
      FlattenOneMore([], g);
      if columns > 0 && width + w > columns && line != [] {
        out := out + [line];
        FlattenEachOneMore(done, begun);
        assert all[|done|..][1..] == all[|done| + 1..];
        done := done + [begun];
        line, begun := [], [];
        width := 0;
        NothingBefore(g);
      }
      line := line + g;
      begun := begun + [g];
      width := width + w;
    }
    assert clusters[|clusters|..] == [];
    GroupEnd(measure, columns, begun, width);
    if line != [] || text == [] {
      out := out + [line];
    }
    FlattenEachOneMore(done, begun);
    GroupEnd(measure, columns, [], 0);
    assert all == done + all[|done|..];
    if begun == [] {
      assert all == done;
    } else {
      assert all == done + [begun];
    }
    if text == [] {
      assert all == [] && done == [] && out == [[]];
    } else {
      assert out == FlattenEach(all);
    }
  }

  lemma NothingBefore(g: bytes)
    ensures [] + [g] == [g] && [] + g == g
  {
  }

  lemma ClustersOfNothing(tab: Table, text: bytes)
    ensures text == [] <==> ClustersFrom(tab, text, 0) == []
  {
    hide NextBreak;
  }

  lemma FlattenEachOneMore(lines: seq<seq<bytes>>, line: seq<bytes>)
    ensures FlattenEach(lines + [line]) == FlattenEach(lines) + [Flatten(line)]
    ensures FlattenEach([]) == []
  {
    hide Flatten;
  }

  lemma FlattenNothing()
    ensures Flatten<byte>([]) == []
  {
  }

  lemma {:induction false} FlattenOneMore(line: seq<bytes>, g: bytes)
    ensures Flatten(line + [g]) == Flatten(line) + g
  {
    if line == [] {
      assert [g][1..] == [] && line + [g] == [g];
    } else {
      assert (line + [g])[1..] == line[1..] + [g];
      FlattenOneMore(line[1..], g);
    }
  }

  lemma GroupStep(clusters: seq<bytes>, measure: Measure, columns: nat, line: seq<bytes>, width: nat)
    requires clusters != []
    ensures var g, w := clusters[0], measure(clusters[0]);
            Group(clusters, measure, columns, line, width)
            == if Breaks(columns, line, width, w) then [line] + Group(clusters[1..], measure, columns, [g], w)
               else Group(clusters[1..], measure, columns, line + [g], width + w)
  {
  }

  lemma GroupEnd(measure: Measure, columns: nat, line: seq<bytes>, width: nat)
    ensures Group([], measure, columns, line, width) == if line == [] then [] else [line]
  {
  }

  // ----- lossless

  /** All clusters of all lines, in order. */
  lemma {:induction false} GroupKeepsClusters(clusters: seq<bytes>, measure: Measure, columns: nat, line: seq<bytes>,
                                              width: nat)
    ensures Flatten(Group(clusters, measure, columns, line, width)) == line + clusters
    decreases |clusters|
  {
    hide Breaks;
    if clusters == [] {
      assert line != [] ==> Flatten([line]) == line + Flatten([]) == line;
    } else {
      var g, w := clusters[0], measure(clusters[0]);
      assert clusters == [g] + clusters[1..];
      if Breaks(columns, line, width, w) {
        GroupKeepsClusters(clusters[1..], measure, columns, [g], w);
        var rest := Group(clusters[1..], measure, columns, [g], w);
        assert ([line] + rest)[1..] == rest;
      } else {
        GroupKeepsClusters(clusters[1..], measure, columns, line + [g], width + w);
        assert line + [g] + clusters[1..] == line + clusters;
      }
    }
  }

  lemma {:induction false} FlattenAppend(a: seq<bytes>, b: seq<bytes>)
    ensures Flatten(a + b) == Flatten(a) + Flatten(b)
  {
    if a == [] {
      assert a + b == b;
    } else {
      assert (a + b)[1..] == a[1..] + b;
      FlattenAppend(a[1..], b);
    }
  }

  lemma {:induction false} FlattenTwice(lines: seq<seq<bytes>>)
    ensures Flatten(FlattenEach(lines)) == Flatten(Flatten(lines))
  {
    if lines != [] {
      FlattenTwice(lines[1..]);
      assert FlattenEach(lines)[1..] == FlattenEach(lines[1..]);
      FlattenAppend(lines[0], Flatten(lines[1..]));
    }
  }

  /** The lines, one after another, are the text. */
  lemma WrapIsLossless(tab: Table, measure: Measure, text: bytes, columns: nat)
    ensures Flatten(WrapLines(tab, measure, text, columns)) == text
    ensures WrapLines(tab, measure, text, columns) != []
    ensures columns == 0 ==> WrapLines(tab, measure, text, columns) == [text]
  {
    hide ClustersFrom, Group;
    var clusters := ClustersFrom(tab, text, 0);
    GroupKeepsClusters(clusters, measure, columns, [], 0);
    assert [] + clusters == clusters && text[0..] == text;
    SegmentPartitions(tab, text, 0);
    if text == [] {
      var nothing: bytes := [];
      assert Flatten([nothing]) == nothing + Flatten([nothing][1..]);
    } else {
      FlattenTwice(Grouped(tab, measure, text, columns));
      NeverBreaks(clusters, measure, [], 0);
      if columns == 0 {
        var line := WrapLines(tab, measure, text, columns)[0];
        assert Flatten([line]) == line + Flatten([line][1..]) == line;
      }
    }
  }

  /** Without a limit there is one line. */
  lemma {:induction false} NeverBreaks(clusters: seq<bytes>, measure: Measure, line: seq<bytes>, width: nat)
    ensures line + clusters != [] ==> |Group(clusters, measure, 0, line, width)| == 1
    decreases |clusters|
  {
    if clusters != [] {
      NeverBreaks(clusters[1..], measure, line + [clusters[0]], width + measure(clusters[0]));
    }
  }

  // ----- every line fits

  ghost predicate LineFits(line: seq<bytes>, measure: Measure, columns: nat) {
    line != [] && (columns == 0 || Total(line, measure) <= columns || |line| == 1)
  }

  lemma TotalOneMore(line: seq<bytes>, g: bytes, measure: Measure)
    ensures Total(line + [g], measure) == Total(line, measure) + measure(g)
  {
    assert (line + [g])[..|line|] == line;
  }

  /** A line is wider than the limit only if it is a single cluster that is. */
  lemma {:induction false} LinesFit(clusters: seq<bytes>, measure: Measure, columns: nat, line: seq<bytes>, width: nat)
    requires width == Total(line, measure) && (line != [] ==> LineFits(line, measure, columns))
    ensures var lines := Group(clusters, measure, columns, line, width);
            forall i :: 0 <= i < |lines| ==> LineFits(lines[i], measure, columns)
    decreases |clusters|
  {
    hide Total, Group;
    if clusters == [] {
      GroupEnd(measure, columns, line, width);
    } else {
      GroupStep(clusters, measure, columns, line, width);
      var g, w := clusters[0], measure(clusters[0]);
      TotalOneMore(line, g, measure);
      TotalOneMore([], g, measure);
      TotalNothing(measure);
      assert [] + [g] == [g];
      if Breaks(columns, line, width, w) {
        LinesFit(clusters[1..], measure, columns, [g], w);
      } else {
        assert LineFits(line + [g], measure, columns);
        LinesFit(clusters[1..], measure, columns, line + [g], width + w);
      }
    }
  }

  lemma TotalNothing(measure: Measure)
    ensures Total([], measure) == 0
  {
  }

  // ----- no division has fewer lines

  /** `lines` divides `clusters` into lines that fit, the first of which already holds `used` columns. */
  ghost predicate Divides(lines: seq<seq<bytes>>, clusters: seq<bytes>, measure: Measure, columns: nat, used: nat) {
    && Flatten(lines) == clusters
    && (forall i :: 0 < i < |lines| ==> Total(lines[i], measure) <= columns)
    && (lines != [] ==> used + Total(lines[0], measure) <= columns)
  }

  lemma {:induction false} TotalFirst(line: seq<bytes>, measure: Measure)
    requires line != []
    ensures Total(line, measure) == measure(line[0]) + Total(line[1..], measure)
  {
    if |line| == 1 {
      assert line[..0] == [] && line[1..] == [];
    } else {
      TotalFirst(line[..|line| - 1], measure);
      assert line[..|line| - 1][1..] == line[1..][..|line| - 2];
    }
  }

  /** The rest of a division once its first line is used up. */
  lemma NextLine(lines: seq<seq<bytes>>, clusters: seq<bytes>, measure: Measure, columns: nat, used: nat)
    requires Divides(lines, clusters, measure, columns, used) && lines != [] && lines[0] == []
    ensures Divides(lines[1..], clusters, measure, columns, 0)
  {
  }

  /** The rest of a division once the first cluster of its first line is taken. */
  lemma TakeCluster(lines: seq<seq<bytes>>, clusters: seq<bytes>, measure: Measure, columns: nat, used: nat)
    requires Divides(lines, clusters, measure, columns, used) && lines != [] && lines[0] != []
    ensures clusters != [] && lines[0][0] == clusters[0]
    ensures Divides([lines[0][1..]] + lines[1..], clusters[1..], measure, columns, used + measure(clusters[0]))
    ensures used + measure(clusters[0]) <= columns
  {
    TotalFirst(lines[0], measure);
    assert clusters[1..] == lines[0][1..] + Flatten(lines[1..]);
    assert ([lines[0][1..]] + lines[1..])[1..] == lines[1..];
  }

  /** On the same line with no more used, the greedy wrap needs no more lines than any division. */
  lemma {:induction false} GreedyAhead(clusters: seq<bytes>, measure: Measure, columns: nat, line: seq<bytes>,
                                       width: nat, lines: seq<seq<bytes>>, used: nat)
    requires columns > 0 && line != [] && lines != []
    requires Divides(lines, clusters, measure, columns, used) && width <= used
    ensures |Group(clusters, measure, columns, line, width)| <= |lines|
    decreases |clusters| + |lines|
  {
    hide Divides, Total, Flatten;
    if clusters != [] {
      if lines[0] == [] {
        NextLine(lines, clusters, measure, columns, used);
        GreedyLineAhead(clusters, measure, columns, line, width, lines[1..], 0);
      } else {
        TakeCluster(lines, clusters, measure, columns, used);
        var g, w := clusters[0], measure(clusters[0]);
        GreedyAhead(clusters[1..], measure, columns, line + [g], width + w, [lines[0][1..]] + lines[1..], used + w);
      }
    }
  }

  /** A line ahead, it needs at most one line more, whatever is used. */
  lemma {:induction false} GreedyLineAhead(clusters: seq<bytes>, measure: Measure, columns: nat, line: seq<bytes>,
                                           width: nat, lines: seq<seq<bytes>>, used: nat)
    requires columns > 0 && line != []
    requires Divides(lines, clusters, measure, columns, used)
    ensures |Group(clusters, measure, columns, line, width)| <= |lines| + 1
    decreases |clusters| + |lines|
  {
    hide Divides, Total, Flatten;
    if clusters != [] {
      SomeLine(lines, clusters, measure, columns, used);
      if lines[0] == [] {
        NextLine(lines, clusters, measure, columns, used);
        GreedyLineAhead(clusters, measure, columns, line, width, lines[1..], 0);
      } else {
        TakeCluster(lines, clusters, measure, columns, used);
        var g, w := clusters[0], measure(clusters[0]);
        var rest := [lines[0][1..]] + lines[1..];
        if Breaks(columns, line, width, w) {
          GreedyAhead(clusters[1..], measure, columns, [g], w, rest, used + w);
        } else {
          GreedyLineAhead(clusters[1..], measure, columns, line + [g], width + w, rest, used + w);
        }
      }
    }
  }

  lemma SomeLine(lines: seq<seq<bytes>>, clusters: seq<bytes>, measure: Measure, columns: nat, used: nat)
    requires Divides(lines, clusters, measure, columns, used) && clusters != []
    ensures lines != []
  {
  }

  lemma {:induction false} GreedyIsOptimal(clusters: seq<bytes>, measure: Measure, columns: nat, lines: seq<seq<bytes>>)
    requires columns > 0 && Divides(lines, clusters, measure, columns, 0)
    ensures |Group(clusters, measure, columns, [], 0)| <= |lines|
    decreases |lines|
  {
    hide Divides, Total, Flatten;
    if clusters != [] {
      SomeLine(lines, clusters, measure, columns, 0);
      if lines[0] == [] {
        NextLine(lines, clusters, measure, columns, 0);
        GreedyIsOptimal(clusters, measure, columns, lines[1..]);
      } else {
        TakeCluster(lines, clusters, measure, columns, 0);
        var g, w := clusters[0], measure(clusters[0]);
        assert [] + [g] == [g];
        GreedyAhead(clusters[1..], measure, columns, [g], w, [lines[0][1..]] + lines[1..], w);
      }
    }
  }

  /**
   * When every cluster fits, every line of a non-empty text fits, and no other division of the text
   * at cluster boundaries into lines that fit has fewer lines.
   */
  lemma WrapIsOptimal(tab: Table, measure: Measure, text: bytes, columns: nat, other: seq<seq<bytes>>)
    requires text != [] && columns > 0
    requires forall g <- ClustersFrom(tab, text, 0) :: measure(g) <= columns
    requires Flatten(other) == ClustersFrom(tab, text, 0)
    requires forall i :: 0 <= i < |other| ==> Total(other[i], measure) <= columns
    ensures var lines := Grouped(tab, measure, text, columns);
            && WrapLines(tab, measure, text, columns) == FlattenEach(lines)
            && (forall i :: 0 <= i < |lines| ==> Total(lines[i], measure) <= columns)
            && |WrapLines(tab, measure, text, columns)| <= |other|
  {
    hide ClustersFrom, Group;
    var clusters := ClustersFrom(tab, text, 0);
    var lines := Grouped(tab, measure, text, columns);
    TotalNothing(measure);
    LinesFit(clusters, measure, columns, [], 0);
    GroupKeepsClusters(clusters, measure, columns, [], 0);
    assert [] + clusters == clusters;
    forall i | 0 <= i < |lines|
      ensures Total(lines[i], measure) <= columns
    {
      assert LineFits(lines[i], measure, columns);
      if |lines[i]| == 1 {
        InConcat(lines, i, lines[i][0]);
        TotalFirst(lines[i], measure);
      }
    }
    GreedyIsOptimal(clusters, measure, columns, other);
  }

  lemma {:induction false} InConcat(lines: seq<seq<bytes>>, i: nat, g: bytes)
    requires i < |lines| && g in lines[i]
    ensures g in Flatten(lines)
  {
    if i > 0 {
      InConcat(lines[1..], i - 1, g);
    }
  }
}
