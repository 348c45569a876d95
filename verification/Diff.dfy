/** The line diff of TTyUtils-Diff: an LCS table, the walk that reads it, and the patch. */
module Diff {
  import opened Bytes
  import opened LineIndexes
  import opened TextBuffer
  import opened TextLines

  datatype Kind = Equal | Add | Remove

  datatype Hunk = Hunk(kind: Kind, oldLine: nat, newLine: nat, content: seq<bytes>)

  // ----- lines of a text

  /** `split_lines`. */
  method SplitLines(text: bytes) returns (result: seq<bytes>)
    ensures result == SplitFrom(text, 0)
  {
    hide FindByte, SplitFrom;
    result := [];
    var start := 0;
    while true
      invariant start <= |text|
      invariant result + SplitFrom(text, start) == SplitFrom(text, 0)
      decreases |text| - start
    {
      var end := FindByte(text, LF, start);
      NextSplit(text, start);
      result := result + [text[start..end]];
      if end == |text| {
        assert text[start..end] == text[start..];
        return;
      }
      start := end + 1;
    }
  }

  // ----- the longest common subsequence

  function Max(a: nat, b: nat): nat {
    if a < b then b else a
  }

  /** What cell (i, j) of the table holds. */
  function Lcs<T(==)>(a: seq<T>, b: seq<T>, i: nat, j: nat): nat
    requires i <= |a| && j <= |b|
    decreases |a| - i, |b| - j
  {
    if i == |a| || j == |b| then 0
    else if a[i] == b[j] then 1 + Lcs(a, b, i + 1, j + 1)
    else Max(Lcs(a, b, i + 1, j), Lcs(a, b, i, j + 1))
  }

  /** `p` picks increasing positions of a and `q` of b, and the picked lines are equal. */
  ghost predicate CommonSubsequence<T>(a: seq<T>, b: seq<T>, p: seq<nat>, q: seq<nat>) {
    && |p| == |q|
    && (forall k :: 0 <= k < |p| ==> p[k] < |a| && q[k] < |b| && a[p[k]] == b[q[k]])
    && (forall k, l :: 0 <= k < l < |p| ==> p[k] < p[l] && q[k] < q[l])
  }

  /** No common subsequence from (i, j) on is longer than the table says. */
  lemma {:induction false} LcsIsUpperBound<T>(a: seq<T>, b: seq<T>, i: nat, j: nat, p: seq<nat>, q: seq<nat>)
    requires i <= |a| && j <= |b| && CommonSubsequence(a, b, p, q)
    requires p != [] ==> i <= p[0] && j <= q[0]
    ensures |p| <= Lcs(a, b, i, j)
    decreases |a| - i, |b| - j
  {
    if p != [] {
      if a[i] == b[j] {
        if |p| > 1 {
          assert p[0] < p[1] && q[0] < q[1];
        }
        LcsIsUpperBound(a, b, i + 1, j + 1, p[1..], q[1..]);
      } else if i < p[0] {
        LcsIsUpperBound(a, b, i + 1, j, p, q);
      } else {
        LcsIsUpperBound(a, b, i, j + 1, p, q);
      }
    }
  }

  // ----- the walk

  /** One step of the walk: a line kept, added or removed, and how far both sides were. */
  datatype Line = Line(kind: Kind, oldLine: nat, newLine: nat, text: bytes)

  function Walk(a: seq<bytes>, b: seq<bytes>, i: nat, j: nat): seq<Line>
    requires i <= |a| && j <= |b|
    decreases |a| - i + |b| - j
  {
    if i == |a| && j == |b| then []
    else if i < |a| && j < |b| && a[i] == b[j] then [Line(Equal, i, j, a[i])] + Walk(a, b, i + 1, j + 1)
    else if j < |b| && (i == |a| || Lcs(a, b, i, j + 1) >= Lcs(a, b, i + 1, j)) then
      [Line(Add, i, j, b[j])] + Walk(a, b, i, j + 1)
    else [Line(Remove, i, j, a[i])] + Walk(a, b, i + 1, j)
  }

  function OldSide(lines: seq<Line>): seq<bytes> {
    if lines == [] then []
    else (if lines[0].kind == Add then [] else [lines[0].text]) + OldSide(lines[1..])
  }

  function NewSide(lines: seq<Line>): seq<bytes> {
    if lines == [] then []
    else (if lines[0].kind == Remove then [] else [lines[0].text]) + NewSide(lines[1..])
  }

  function Kept(lines: seq<Line>): nat {
    if lines == [] then 0 else (if lines[0].kind == Equal then 1 else 0) + Kept(lines[1..])
  }

  /** Each line is numbered by what stands before it on either side. */
  ghost predicate Numbered(lines: seq<Line>, i: nat, j: nat) {
    forall k :: 0 <= k < |lines| ==>
      lines[k].oldLine == i + |OldSide(lines[..k])| && lines[k].newLine == j + |NewSide(lines[..k])|
  }

  lemma SidesOfCons(line: Line, rest: seq<Line>)
    ensures OldSide([line] + rest) == (if line.kind == Add then [] else [line.text]) + OldSide(rest)
    ensures NewSide([line] + rest) == (if line.kind == Remove then [] else [line.text]) + NewSide(rest)
    ensures Kept([line] + rest) == (if line.kind == Equal then 1 else 0) + Kept(rest)
  {
    assert ([line] + rest)[1..] == rest;
  }

  /** Without its additions the walk is the old list. */
  lemma {:induction false} WalkCoversOld(a: seq<bytes>, b: seq<bytes>, i: nat, j: nat)
    requires i <= |a| && j <= |b|
    ensures OldSide(Walk(a, b, i, j)) == a[i..]
    decreases |a| - i + |b| - j
  {
    hide Lcs, OldSide, NewSide, Kept;
    if i == |a| && j == |b| {
      SidesOfNothing();
    } else if i < |a| && j < |b| && a[i] == b[j] {
      WalkCoversOld(a, b, i + 1, j + 1);
      SidesOfCons(Line(Equal, i, j, a[i]), Walk(a, b, i + 1, j + 1));
    } else if j < |b| && (i == |a| || Lcs(a, b, i, j + 1) >= Lcs(a, b, i + 1, j)) {
      WalkCoversOld(a, b, i, j + 1);
      SidesOfCons(Line(Add, i, j, b[j]), Walk(a, b, i, j + 1));
    } else {
      WalkCoversOld(a, b, i + 1, j);
      SidesOfCons(Line(Remove, i, j, a[i]), Walk(a, b, i + 1, j));
    }
  }

  /** Without its removals the walk is the new list. */
  lemma {:induction false} WalkCoversNew(a: seq<bytes>, b: seq<bytes>, i: nat, j: nat)
    requires i <= |a| && j <= |b|
    ensures NewSide(Walk(a, b, i, j)) == b[j..]
    decreases |a| - i + |b| - j
  {
    hide Lcs, OldSide, NewSide, Kept;
    if i == |a| && j == |b| {
      SidesOfNothing();
    } else if i < |a| && j < |b| && a[i] == b[j] {
      WalkCoversNew(a, b, i + 1, j + 1);
      SidesOfCons(Line(Equal, i, j, a[i]), Walk(a, b, i + 1, j + 1));
    } else if j < |b| && (i == |a| || Lcs(a, b, i, j + 1) >= Lcs(a, b, i + 1, j)) {
      WalkCoversNew(a, b, i, j + 1);
      SidesOfCons(Line(Add, i, j, b[j]), Walk(a, b, i, j + 1));
    } else {
      WalkCoversNew(a, b, i + 1, j);
      SidesOfCons(Line(Remove, i, j, a[i]), Walk(a, b, i + 1, j));
    }
  }

  lemma SidesOfNothing()
    ensures OldSide([]) == [] && NewSide([]) == [] && Kept([]) == 0
  {
  }

  /** The walk keeps exactly as many lines as the table promises. */
  lemma {:induction false} WalkKeepsLcs(a: seq<bytes>, b: seq<bytes>, i: nat, j: nat)
    requires i <= |a| && j <= |b|
    ensures Kept(Walk(a, b, i, j)) == Lcs(a, b, i, j)
    decreases |a| - i + |b| - j
  {
    hide OldSide, NewSide, Kept;
    if i == |a| && j == |b| {
      SidesOfNothing();
    } else if i < |a| && j < |b| && a[i] == b[j] {
      WalkKeepsLcs(a, b, i + 1, j + 1);
      SidesOfCons(Line(Equal, i, j, a[i]), Walk(a, b, i + 1, j + 1));
    } else if j < |b| && (i == |a| || Lcs(a, b, i, j + 1) >= Lcs(a, b, i + 1, j)) {
      WalkKeepsLcs(a, b, i, j + 1);
      SidesOfCons(Line(Add, i, j, b[j]), Walk(a, b, i, j + 1));
    } else {
      WalkKeepsLcs(a, b, i + 1, j);
      SidesOfCons(Line(Remove, i, j, a[i]), Walk(a, b, i + 1, j));
    }
  }

  lemma {:induction false} WalkNumbered(a: seq<bytes>, b: seq<bytes>, i: nat, j: nat)
    requires i <= |a| && j <= |b|
    ensures Numbered(Walk(a, b, i, j), i, j)
    decreases |a| - i + |b| - j
  {
    hide Lcs;
    var lines := Walk(a, b, i, j);
    if lines != [] {
      var i' := if lines[0].kind == Add then i else i + 1;
      var j' := if lines[0].kind == Remove then j else j + 1;
      WalkNumbered(a, b, i', j');
      forall k | 0 <= k < |lines|
        ensures lines[k].oldLine == i + |OldSide(lines[..k])| && lines[k].newLine == j + |NewSide(lines[..k])|
      {
        if k > 0 {
          assert lines[..k][1..] == lines[1..][..k - 1];
          assert lines[k] == lines[1..][k - 1];
        }
      }
    }
  }

  // ----- hunks

  /** The `append` lambda: a line joins the last hunk if its kind and both its numbers continue it. */
  function Append(hunks: seq<Hunk>, line: Line): seq<Hunk> {
    if hunks != [] && Continues(hunks[|hunks| - 1], line) then
      var last := hunks[|hunks| - 1];
      hunks[..|hunks| - 1] + [last.(content := last.content + [line.text])]
    else hunks + [Hunk(line.kind, line.oldLine, line.newLine, [line.text])]
  }

  predicate Continues(h: Hunk, line: Line) {
    h.kind == line.kind && h.oldLine + |h.content| == line.oldLine && h.newLine + |h.content| == line.newLine
  }

  function AppendAll(hunks: seq<Hunk>, lines: seq<Line>): seq<Hunk>
    decreases |lines|
  {
    if lines == [] then hunks else AppendAll(Append(hunks, lines[0]), lines[1..])
  }

  /** The hunks of the diff of two lists of lines. */
  function Hunks(a: seq<bytes>, b: seq<bytes>): seq<Hunk> {
    AppendAll([], Walk(a, b, 0, 0))
  }

  /** `diff::lines`. */
  method Lines(oldText: bytes, newText: bytes) returns (result: seq<Hunk>)
    ensures result == Hunks(SplitFrom(oldText, 0), SplitFrom(newText, 0))
  {
    hide Lcs, Append;
    var oldLines := SplitLines(oldText);
    var newLines := SplitLines(newText);
    var lcs := FillTable(oldLines, newLines);
    result := [];
    var oldAt, newAt := 0, 0;
    while oldAt < |oldLines| || newAt < |newLines|
      invariant oldAt <= |oldLines| && newAt <= |newLines|
      invariant AppendAll(result, Walk(oldLines, newLines, oldAt, newAt)) == Hunks(oldLines, newLines)
      decreases |oldLines| - oldAt + |newLines| - newAt
    {
      if oldAt < |oldLines| && newAt < |newLines| && oldLines[oldAt] == newLines[newAt] {
        result := Append(result, Line(Equal, oldAt, newAt, oldLines[oldAt]));
        oldAt := oldAt + 1;
        newAt := newAt + 1;
      } else if newAt < |newLines| && (oldAt == |oldLines| || lcs[oldAt, newAt + 1] >= lcs[oldAt + 1, newAt]) {
        result := Append(result, Line(Add, oldAt, newAt, newLines[newAt]));
        newAt := newAt + 1;
      } else {
        result := Append(result, Line(Remove, oldAt, newAt, oldLines[oldAt]));
        oldAt := oldAt + 1;
      }
    }
  }

  lemma LcsEdge<T>(a: seq<T>, b: seq<T>, i: nat, j: nat)
    requires i <= |a| && j <= |b| && (i == |a| || j == |b|)
    ensures Lcs(a, b, i, j) == 0
  {
  }

  lemma LcsCell<T>(a: seq<T>, b: seq<T>, i: nat, j: nat)
    requires i < |a| && j < |b|
    ensures Lcs(a, b, i, j)
         == if a[i] == b[j] then Lcs(a, b, i + 1, j + 1) + 1 else Max(Lcs(a, b, i + 1, j), Lcs(a, b, i, j + 1))
  {
  }

  /** The table of `diff::lines`, filled from its last corner. */
  method FillTable(a: seq<bytes>, b: seq<bytes>) returns (lcs: array2<nat>)
    ensures fresh(lcs) && lcs.Length0 == |a| + 1 && lcs.Length1 == |b| + 1
    ensures forall i, j :: 0 <= i <= |a| && 0 <= j <= |b| ==> lcs[i, j] == Lcs(a, b, i, j)
  {
    hide Lcs;
    lcs := new nat[|a| + 1, |b| + 1]((i, j) => 0);
    forall k, l | 0 <= k <= |a| && 0 <= l <= |b| && (k == |a| || l == |b|)
      ensures Lcs(a, b, k, l) == 0
    {
      LcsEdge(a, b, k, l);
    }
    var i := |a|;
    while i > 0
      invariant 0 <= i <= |a|
      invariant forall k, l :: 0 <= k <= |a| && 0 <= l <= |b| && (k >= i || l == |b|) ==> lcs[k, l] == Lcs(a, b, k, l)
    {
      i := i - 1;
      var j := |b|;
      while j > 0
        invariant 0 <= j <= |b|
        invariant forall k, l :: 0 <= k <= |a| && 0 <= l <= |b| && (k > i || (k == i && l >= j) || l == |b|) ==>
                    lcs[k, l] == Lcs(a, b, k, l)
      {
        j := j - 1;
        LcsCell(a, b, i, j);
        lcs[i, j] := if a[i] == b[j] then lcs[i + 1, j + 1] + 1 else Max(lcs[i + 1, j], lcs[i, j + 1]);
      }
    }
  }

  /** The lines a hunk stands for, one by one. */
  function LinesOf(h: Hunk): seq<Line> {
    seq(|h.content|, k requires 0 <= k < |h.content| => Line(h.kind, h.oldLine + k, h.newLine + k, h.content[k]))
  }

  function Expand(hunks: seq<Hunk>): seq<Line> {
    if hunks == [] then [] else Expand(hunks[..|hunks| - 1]) + LinesOf(hunks[|hunks| - 1])
  }

  lemma AppendExpands(hunks: seq<Hunk>, line: Line)
    ensures Expand(Append(hunks, line)) == Expand(hunks) + [line]
  {
    if hunks != [] && Continues(hunks[|hunks| - 1], line) {
      var front, last := hunks[..|hunks| - 1], hunks[|hunks| - 1];
      var longer := last.(content := last.content + [line.text]);
      assert Append(hunks, line)[..|hunks| - 1] == front;
      assert LinesOf(longer) == LinesOf(last) + [line];
    } else {
      var single := Hunk(line.kind, line.oldLine, line.newLine, [line.text]);
      assert Append(hunks, line)[..|hunks|] == hunks;
      assert LinesOf(single) == [line];
    }
  }

  lemma {:induction false} AppendAllExpands(hunks: seq<Hunk>, lines: seq<Line>)
    ensures Expand(AppendAll(hunks, lines)) == Expand(hunks) + lines
    decreases |lines|
  {
    hide Append, Expand;
    if lines != [] {
      AppendExpands(hunks, lines[0]);
      AppendAllExpands(Append(hunks, lines[0]), lines[1..]);
      assert lines == [lines[0]] + lines[1..];
    }
  }

  ghost predicate EditsSingle(hunks: seq<Hunk>) {
    forall k :: 0 <= k < |hunks| ==> hunks[k].kind != Equal ==> |hunks[k].content| == 1
  }

  /** The numbers of a line that is added or removed never continue its own hunk. */
  lemma {:induction false} EditHunksHoldOneLine(a: seq<bytes>, b: seq<bytes>, i: nat, j: nat, hunks: seq<Hunk>)
    requires i <= |a| && j <= |b| && EditsSingle(hunks)
    requires forall k :: 0 <= k < |hunks| ==> hunks[k].content != []
    requires hunks != [] ==> EndsAt(hunks[|hunks| - 1], i, j)
    ensures EditsSingle(AppendAll(hunks, Walk(a, b, i, j)))
    decreases |a| - i + |b| - j
  {
    hide Lcs;
    var lines := Walk(a, b, i, j);
    if lines != [] {
      var i' := if lines[0].kind == Add then i else i + 1;
      var j' := if lines[0].kind == Remove then j else j + 1;
      assert lines[1..] == Walk(a, b, i', j');
      EditHunksHoldOneLine(a, b, i', j', Append(hunks, lines[0]));
    }
  }

  /** A hunk that the walk has just left at (i, j). */
  predicate EndsAt(h: Hunk, i: nat, j: nat) {
    && i == h.oldLine + (if h.kind == Add then 0 else |h.content|)
    && j == h.newLine + (if h.kind == Remove then 0 else |h.content|)
  }

  // ----- how lines are grouped

  /** The later hunk does not go on where the earlier one ends. */
  predicate Parted(earlier: Hunk, later: Hunk) {
    || later.kind != earlier.kind
    || later.oldLine != earlier.oldLine + |earlier.content|
    || later.newLine != earlier.newLine + |earlier.content|
  }

  /** No hunk is empty, and none could be joined to the one before it. */
  ghost predicate Grouped(hunks: seq<Hunk>) {
    && NoneEmpty(hunks)
    && (forall k, l :: 0 <= k && k + 1 == l < |hunks| ==> Parted(hunks[k], hunks[l]))
  }

  lemma AppendGroups(hunks: seq<Hunk>, line: Line)
    requires Grouped(hunks)
    ensures Grouped(Append(hunks, line))
  {
    var grown := Append(hunks, line);
    forall k, l | 0 <= k && k + 1 == l < |grown|
      ensures Parted(grown[k], grown[l])
    {
      assert l < |hunks| ==> Parted(hunks[k], hunks[l]);
    }
  }

  lemma {:induction false} AppendAllGroups(hunks: seq<Hunk>, lines: seq<Line>)
    requires Grouped(hunks)
    ensures Grouped(AppendAll(hunks, lines))
    decreases |lines|
  {
    hide Append, Grouped;
    if lines != [] {
      AppendGroups(hunks, lines[0]);
      AppendAllGroups(Append(hunks, lines[0]), lines[1..]);
    }
  }

  /** The line that many places before the last one. */
  lemma LineFromEnd(hunks: seq<Hunk>, r: nat)
    requires hunks != [] && r < |hunks[|hunks| - 1].content|
    ensures var h, lines := hunks[|hunks| - 1], Expand(hunks);
            var at := |h.content| - 1 - r;
            && |lines| == |Expand(hunks[..|hunks| - 1])| + |h.content|
            && lines[|lines| - 1 - r] == Line(h.kind, h.oldLine + at, h.newLine + at, h.content[at])
  {
  }

  ghost predicate NoneEmpty(hunks: seq<Hunk>) {
    forall k :: 0 <= k < |hunks| ==> hunks[k].content != []
  }

  /** Where another grouping of the same lines ends in a longer hunk, the last hunk could be joined. */
  lemma LastCouldBeJoined(a: seq<Hunk>, b: seq<Hunk>)
    requires NoneEmpty(a) && a != [] && b != [] && Expand(a) == Expand(b)
    requires |a[|a| - 1].content| < |b[|b| - 1].content|
    ensures |a| > 1 && !Parted(a[|a| - 2], a[|a| - 1])
  {
    hide Expand;
    var g, front := a[|a| - 1], a[..|a| - 1];
    LineFromEnd(a, |g.content| - 1);
    LineFromEnd(b, |g.content| - 1);
    LineFromEnd(b, |g.content|);
    NotEmptyExpand(front);
    LineFromEnd(front, 0);
    LineBefore(a, |g.content|);
  }

  /** Two groupings of the same lines end in hunks of the same length. */
  lemma LastNotShorter(a: seq<Hunk>, b: seq<Hunk>)
    requires Grouped(a) && Grouped(b) && a != [] && b != [] && Expand(a) == Expand(b)
    ensures |a[|a| - 1].content| >= |b[|b| - 1].content|
  {
    hide Expand, Parted;
    if |a[|a| - 1].content| < |b[|b| - 1].content| {
      LastCouldBeJoined(a, b);
    }
  }

  lemma NotEmptyExpand(hunks: seq<Hunk>)
    ensures Expand(hunks) != [] ==> hunks != []
  {
  }

  lemma LineBefore(hunks: seq<Hunk>, r: nat)
    requires |hunks| > 1 && r == |hunks[|hunks| - 1].content| && Expand(hunks[..|hunks| - 1]) != []
    ensures var front, lines := Expand(hunks[..|hunks| - 1]), Expand(hunks);
            |lines| == |front| + r && lines[|lines| - 1 - r] == front[|front| - 1]
  {
    hide LinesOf;
    LengthOfLines(hunks[|hunks| - 1]);
  }

  lemma LengthOfLines(h: Hunk)
    ensures |LinesOf(h)| == |h.content|
  {
  }

  /** The lines decide how they are grouped. */
  lemma {:induction false} GroupedOnce(a: seq<Hunk>, b: seq<Hunk>)
    requires Grouped(a) && Grouped(b) && Expand(a) == Expand(b)
    ensures a == b
    decreases |a|
  {
    hide Expand;
    if a == [] || b == [] {
      ExpandNothing(a);
      ExpandNothing(b);
    } else {
      LastNotShorter(a, b);
      LastNotShorter(b, a);
      var g, h, n := a[|a| - 1], b[|b| - 1], |a[|a| - 1].content|;
      forall k | 0 <= k < n
        ensures g.content[k] == h.content[k]
      {
        LineFromEnd(a, n - 1 - k);
        LineFromEnd(b, n - 1 - k);
      }
      LineFromEnd(a, n - 1);
      LineFromEnd(b, n - 1);
      assert g == h;
      SameFront(a, b);
      GroupedOnce(a[..|a| - 1], b[..|b| - 1]);
      assert a == a[..|a| - 1] + [g] && b == b[..|b| - 1] + [h];
    }
  }

  lemma ExpandNothing(hunks: seq<Hunk>)
    requires Grouped(hunks)
    ensures Expand(hunks) == [] <==> hunks == []
  {
    hide LinesOf;
    if hunks != [] {
      LengthOfLines(hunks[|hunks| - 1]);
    }
  }

  lemma SameFront(a: seq<Hunk>, b: seq<Hunk>)
    requires a != [] && b != [] && Expand(a) == Expand(b) && a[|a| - 1] == b[|b| - 1]
    ensures Expand(a[..|a| - 1]) == Expand(b[..|b| - 1])
  {
    hide LinesOf;
    var x, y, z := Expand(a[..|a| - 1]), Expand(b[..|b| - 1]), LinesOf(a[|a| - 1]);
    assert |x| == |y|;
    assert (x + z)[..|x|] == x && (y + z)[..|y|] == y;
  }

  // ----- which line comes next

  /** At (i, j), going on with this line keeps as many lines as can be kept; at a tie an addition comes first. */
  ghost predicate Chosen(a: seq<bytes>, b: seq<bytes>, line: Line) {
    var i, j := line.oldLine, line.newLine;
    && i <= |a| && j <= |b|
    && match line.kind
       case Equal => i < |a| && j < |b| && a[i] == b[j] && line.text == a[i]
       case Add =>
         && j < |b| && line.text == b[j]
         && (i == |a| || (a[i] != b[j] && Lcs(a, b, i, j + 1) >= Lcs(a, b, i + 1, j)))
       case Remove =>
         && i < |a| && line.text == a[i]
         && (j == |b| || (a[i] != b[j] && Lcs(a, b, i + 1, j) > Lcs(a, b, i, j + 1)))
  }

  lemma {:induction false} WalkChooses(a: seq<bytes>, b: seq<bytes>, i: nat, j: nat)
    requires i <= |a| && j <= |b|
    ensures forall k :: 0 <= k < |Walk(a, b, i, j)| ==> Chosen(a, b, Walk(a, b, i, j)[k])
    decreases |a| - i + |b| - j
  {
    hide Lcs;
    var lines := Walk(a, b, i, j);
    if lines != [] {
      var i' := if lines[0].kind == Add then i else i + 1;
      var j' := if lines[0].kind == Remove then j else j + 1;
      assert lines[1..] == Walk(a, b, i', j');
      WalkChooses(a, b, i', j');
      assert forall k :: 0 < k < |lines| ==> lines[k] == lines[1..][k - 1];
    }
  }

  // ----- the theorem

  /**
   * The hunks, taken line by line, give back both texts, number every line by what precedes it,
   * and keep as many lines as any common subsequence of the two lists can. Lines that go on from one
   * another are in one hunk, and at every choice that keeps as many lines either way the addition comes first.
   */
  lemma DiffIsFaithfulAndOptimal(a: seq<bytes>, b: seq<bytes>)
    ensures var lines := Expand(Hunks(a, b));
            && OldSide(lines) == a && NewSide(lines) == b
            && Numbered(lines, 0, 0)
            && (forall p, q :: CommonSubsequence(a, b, p, q) ==> |p| <= Kept(lines))
    ensures Grouped(Hunks(a, b)) && EditsSingle(Hunks(a, b))
    ensures forall k :: 0 <= k < |Expand(Hunks(a, b))| ==> Chosen(a, b, Expand(Hunks(a, b))[k])
  {
    hide Lcs, Walk, OldSide, NewSide, Kept, Append, Numbered, Chosen;
    AppendAllGroups([], Walk(a, b, 0, 0));
    WalkChooses(a, b, 0, 0);
    assert Expand([]) == [];
    AppendAllExpands([], Walk(a, b, 0, 0));
    assert Expand(Hunks(a, b)) == Walk(a, b, 0, 0);
    assert a[0..] == a && b[0..] == b;
    WalkCoversOld(a, b, 0, 0);
    WalkCoversNew(a, b, 0, 0);
    WalkNumbered(a, b, 0, 0);
    WalkKeepsLcs(a, b, 0, 0);
    EditHunksHoldOneLine(a, b, 0, 0, []);
    forall p, q | CommonSubsequence(a, b, p, q)
      ensures |p| <= Lcs(a, b, 0, 0)
    {
      LcsIsUpperBound(a, b, 0, 0, p, q);
    }
  }

  lemma NothingCommon<T>(a: seq<T>, b: seq<T>)
    ensures CommonSubsequence(a, b, [], [])
  {
  }

  lemma OneMoreCommon<T>(a: seq<T>, b: seq<T>, i: nat, j: nat, p: seq<nat>, q: seq<nat>)
    requires i < |a| && j < |b| && a[i] == b[j]
    requires CommonSubsequence(a, b, p, q) && (p != [] ==> i < p[0] && |q| > 0 && j < q[0])
    ensures CommonSubsequence(a, b, [i] + p, [j] + q)
  {
  }

  /** The kept lines are themselves a common subsequence, so the bound is reached. */
  lemma {:induction false} KeptIsCommon(a: seq<bytes>, b: seq<bytes>, i: nat, j: nat) returns (p: seq<nat>, q: seq<nat>)
    requires i <= |a| && j <= |b|
    ensures CommonSubsequence(a, b, p, q) && |p| == Kept(Walk(a, b, i, j))
    ensures |p| == |q| && (p != [] ==> i <= p[0] && j <= q[0])
    decreases |a| - i + |b| - j
  {
    hide Lcs, Kept, OldSide, NewSide, CommonSubsequence;
    if i == |a| && j == |b| {
      SidesOfNothing();
      p, q := [], [];
      NothingCommon(a, b);
    } else if i < |a| && j < |b| && a[i] == b[j] {
      p, q := KeptIsCommon(a, b, i + 1, j + 1);
      SidesOfCons(Line(Equal, i, j, a[i]), Walk(a, b, i + 1, j + 1));
      OneMoreCommon(a, b, i, j, p, q);
      p, q := [i] + p, [j] + q;
    } else if j < |b| && (i == |a| || Lcs(a, b, i, j + 1) >= Lcs(a, b, i + 1, j)) {
      p, q := KeptIsCommon(a, b, i, j + 1);
      SidesOfCons(Line(Add, i, j, b[j]), Walk(a, b, i, j + 1));
    } else {
      p, q := KeptIsCommon(a, b, i + 1, j);
      SidesOfCons(Line(Remove, i, j, a[i]), Walk(a, b, i + 1, j));
    }
  }

  // ----- the patch

  /** What `Patch::apply` writes: every line that is not removed, each with a line feed. */
  function PatchText(hunks: seq<Hunk>): bytes {
    if hunks == [] then []
    else (if hunks[0].kind == Remove then [] else Terminated(hunks[0].content)) + PatchText(hunks[1..])
  }

  /** The inner loop of `Patch::apply`. */
  method AppendLines(start: bytes, content: seq<bytes>) returns (output: bytes)
    ensures output == start + Terminated(content)
  {
    output := start;
    for l := 0 to |content|
      invariant output + Terminated(content[l..]) == start + Terminated(content)
    {
      assert content[l..][1..] == content[l + 1..];
      output := output + content[l] + [LF];
    }
    assert content[|content|..] == [];
  }

  lemma NextPatch(hunks: seq<Hunk>, k: nat)
    requires k < |hunks|
    ensures PatchText(hunks[k..])
         == (if hunks[k].kind == Remove then [] else Terminated(hunks[k].content)) + PatchText(hunks[k + 1..])
  {
    hide Terminated;
    assert hunks[k..][1..] == hunks[k + 1..];
  }

  lemma Regroup(a: bytes, b: bytes, c: bytes)
    ensures a + (b + c) == a + b + c && [] + c == c
  {
  }

  /** `Patch::apply`. */
  method ApplyPatch(hunks: seq<Hunk>, buffer: Buffer)
    requires buffer.Valid()
    modifies buffer, buffer.cell
    ensures buffer.Valid() && buffer.Text() == PatchText(hunks)
  {
    var output: bytes := [];
    for k := 0 to |hunks|
      invariant output + PatchText(hunks[k..]) == PatchText(hunks)
      modifies {}
    {
      hide Terminated, PatchText;
      ghost var done := output;
      NextPatch(hunks, k);
      Regroup(done, Terminated(hunks[k].content), PatchText(hunks[k + 1..]));
      if hunks[k].kind != Remove {
        output := AppendLines(output, hunks[k].content);
      }
    }
    assert hunks[|hunks|..] == [];
    buffer.Overwrite(output);
  }

  lemma {:induction false} NewSideAppend(xs: seq<Line>, ys: seq<Line>)
    ensures NewSide(xs + ys) == NewSide(xs) + NewSide(ys)
  {
    if xs == [] {
      assert xs + ys == ys;
    } else {
      assert (xs + ys)[1..] == xs[1..] + ys;
      NewSideAppend(xs[1..], ys);
    }
  }

  lemma {:induction false} NewSideOfHunk(h: Hunk, n: nat)
    requires n <= |h.content|
    ensures NewSide(LinesOf(h)[..n]) == if h.kind == Remove then [] else h.content[..n]
  {
    if n > 0 {
      NewSideOfHunk(h, n - 1);
      assert LinesOf(h)[..n] == LinesOf(h)[..n - 1] + [LinesOf(h)[n - 1]];
      NewSideAppend(LinesOf(h)[..n - 1], [LinesOf(h)[n - 1]]);
    }
  }

  lemma LinesOfLength(h: Hunk)
    ensures LinesOf(h)[..|h.content|] == LinesOf(h)
  {
  }

  lemma {:induction false} PatchTextAppend(hunks: seq<Hunk>, h: Hunk)
    ensures PatchText(hunks + [h]) == PatchText(hunks) + PatchText([h])
  {
    if hunks == [] {
      assert hunks + [h] == [h];
    } else {
      assert (hunks + [h])[1..] == hunks[1..] + [h];
      PatchTextAppend(hunks[1..], h);
    }
  }

  /** The patch writes the new side of its hunks. */
  lemma {:induction false} PatchWritesNewSide(hunks: seq<Hunk>)
    ensures PatchText(hunks) == Terminated(NewSide(Expand(hunks)))
  {
    hide LinesOf, NewSide, Terminated;
    if hunks == [] {
      SidesOfNothing();
      assert Terminated([]) == [] by { TerminatedNothing(); }
    } else {
      var front, last := hunks[..|hunks| - 1], hunks[|hunks| - 1];
      assert hunks == front + [last];
      PatchWritesNewSide(front);
      PatchTextAppend(front, last);
      NewSideAppend(Expand(front), LinesOf(last));
      NewSideOfHunk(last, |last.content|);
      LinesOfLength(last);
      TerminatedNothing();
      TerminatedAppend(NewSide(Expand(front)), NewSide(LinesOf(last)));
      assert [last][1..] == [] && PatchText([]) == [];
      assert last.content[..|last.content|] == last.content;
      assert PatchText([last]) == Terminated(NewSide(LinesOf(last)));
    }
  }

  /** Applying the diff of two texts writes the new text, with one line feed more. */
  lemma PatchReproducesNewText(oldText: bytes, newText: bytes)
    ensures PatchText(Hunks(SplitFrom(oldText, 0), SplitFrom(newText, 0))) == newText + [LF]
  {
    hide Hunks, PatchText;
    var a, b := SplitFrom(oldText, 0), SplitFrom(newText, 0);
    DiffIsFaithfulAndOptimal(a, b);
    PatchWritesNewSide(Hunks(a, b));
    SplitThenTerminate(newText, 0);
    assert newText[0..] == newText;
  }
}
