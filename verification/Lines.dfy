/** A text as the list of its lines, and back. */
module TextLines {
  import opened Bytes
  import opened LineIndexes
  import opened TextBuffer

  /** The pieces between line feeds; there is always one more than there are line feeds. */
  function SplitFrom(text: bytes, start: nat): (lines: seq<bytes>)
    requires start <= |text|
    ensures lines != []
    decreases |text| - start
  {
    var end := FindByte(text, LF, start);
    if end == |text| then [text[start..]] else [text[start..end]] + SplitFrom(text, end + 1)
  }

  lemma NextSplit(text: bytes, start: nat)
    requires start <= |text|
    ensures var end := FindByte(text, LF, start);
            SplitFrom(text, start)
            == if end == |text| then [text[start..]] else [text[start..end]] + SplitFrom(text, end + 1)
  {
    hide FindByte;
  }

  /** Every line followed by a line feed. */
  function Terminated(lines: seq<bytes>): bytes {
    if lines == [] then [] else lines[0] + [LF] + Terminated(lines[1..])
  }

  /** Splitting loses nothing: closing every line gives the text and one line feed more. */
  lemma {:induction false} SplitThenTerminate(text: bytes, start: nat)
    requires start <= |text|
    ensures Terminated(SplitFrom(text, start)) == text[start..] + [LF]
    decreases |text| - start
  {
    hide Terminated, FindByte;
    var end := FindByte(text, LF, start);
    if end < |text| {
      SplitThenTerminate(text, end + 1);
      TerminatedCons(text[start..end], SplitFrom(text, end + 1));
      CutAtFeed(text, start, end);
    } else {
      TerminatedCons(text[start..], []);
      TerminatedNothing();
      assert [text[start..]] + [] == [text[start..]];
    }
  }

  lemma CutAtFeed(text: bytes, start: nat, end: nat)
    requires start <= end < |text| && text[end] == LF
    ensures text[start..end] + [LF] + (text[end + 1..] + [LF]) == text[start..] + [LF]
  {
    assert text[start..] == text[start..end] + [LF] + text[end + 1..];
  }

  lemma {:induction false} TerminatedAppend(xs: seq<bytes>, ys: seq<bytes>)
    ensures Terminated(xs + ys) == Terminated(xs) + Terminated(ys)
  {
    if xs == [] {
      assert xs + ys == ys;
    } else {
      assert (xs + ys)[1..] == xs[1..] + ys;
      TerminatedAppend(xs[1..], ys);
    }
  }

  lemma TerminatedCons(line: bytes, rest: seq<bytes>)
    ensures Terminated([line] + rest) == line + [LF] + Terminated(rest)
  {
    assert ([line] + rest)[1..] == rest;
  }

  lemma TerminatedNothing()
    ensures Terminated([]) == []
  {
  }

  /** A list of lines is determined by the text that closes every one of them. */
  lemma {:induction false} TerminatedUnique(xs: seq<bytes>, ys: seq<bytes>)
    requires Terminated(xs) == Terminated(ys)
    requires forall k :: 0 <= k < |xs| ==> LF !in xs[k]
    requires forall k :: 0 <= k < |ys| ==> LF !in ys[k]
    ensures xs == ys
  {
    if xs != [] && ys != [] {
      FirstFeed(xs[0], Terminated(xs[1..]), ys[0], Terminated(ys[1..]));
      TerminatedUnique(xs[1..], ys[1..]);
      assert xs == [xs[0]] + xs[1..] && ys == [ys[0]] + ys[1..];
    }
  }

  lemma FirstFeed(a: bytes, x: bytes, b: bytes, y: bytes)
    requires LF !in a && LF !in b && a + [LF] + x == b + [LF] + y
    ensures a == b && x == y
  {
    FeedAfter(a, x);
    FeedAfter(b, y);
    var whole := a + [LF] + x;
    assert a == whole[..|a|] && b == whole[..|b|];
    assert x == whole[|a| + 1..] && y == whole[|b| + 1..];
  }

  lemma FeedAfter(a: bytes, x: bytes)
    requires LF !in a
    ensures FindByte(a + [LF] + x, LF, 0) == |a|
  {
    assert (a + [LF] + x)[|a|] == LF;
  }

  lemma {:induction false} SplitHasNoFeeds(text: bytes, start: nat)
    requires start <= |text|
    ensures forall k :: 0 <= k < |SplitFrom(text, start)| ==> LF !in SplitFrom(text, start)[k]
    decreases |text| - start
  {
    var end := FindByte(text, LF, start);
    if end < |text| {
      SplitHasNoFeeds(text, end + 1);
    }
  }

  /** Splitting a closed list of lines gives the list back, and an empty last line. */
  lemma TerminateThenSplit(lines: seq<bytes>)
    requires forall k :: 0 <= k < |lines| ==> LF !in lines[k]
    ensures SplitFrom(Terminated(lines), 0) == lines + [[]]
  {
    hide SplitFrom, Terminated;
    var text := Terminated(lines);
    SplitThenTerminate(text, 0);
    SplitHasNoFeeds(text, 0);
    TerminatedAppend(lines, [[]]);
    assert Terminated([[]]) == [LF] by { EmptyLine(); }
    assert text[0..] == text;
    TerminatedUnique(SplitFrom(text, 0), lines + [[]]);
  }

  lemma EmptyLine()
    ensures Terminated([[]]) == [LF]
  {
    TerminatedNothing();
  }

  /** The lines `number` and later. */
  function LinesFrom(text: bytes, number: nat): seq<bytes>
    decreases |LineStarts(text)| - number
  {
    if number >= |LineStarts(text)| then [] else [LineText(text, number)] + LinesFrom(text, number + 1)
  }

  lemma NextLinesFrom(text: bytes, number: nat)
    ensures LinesFrom(text, number)
         == if number >= |LineStarts(text)| then [] else [LineText(text, number)] + LinesFrom(text, number + 1)
  {
    hide LineStarts, LineText;
  }

  lemma {:induction false} LinesFromAt(text: bytes, number: nat, k: nat)
    requires number <= k < |LineStarts(text)|
    ensures |LinesFrom(text, number)| == |LineStarts(text)| - number
    ensures LinesFrom(text, number)[k - number] == LineText(text, k)
    decreases |LineStarts(text)| - number
  {
    hide LineStarts, LineText;
    if number + 1 < |LineStarts(text)| {
      LinesFromAt(text, number + 1, if k > number then k else number + 1);
    }
  }

  /** The line index and the split name the same lines. */
  lemma {:induction false} SplitIsLines(text: bytes, number: nat)
    requires number < |LineStarts(text)| && LineStarts(text)[number] <= |text|
    ensures SplitFrom(text, LineStarts(text)[number]) == LinesFrom(text, number)
    decreases |LineStarts(text)| - number
  {
    hide LineStarts, LineText, FindByte, LinesFrom, SplitFrom;
    LineHasNoFeed(text, number);
    LineTextIsSlice(text, number);
    var starts := LineStarts(text);
    var end := LineEnd(starts, text, number);
    assert FindByte(text, LF, starts[number]) == end;
    NextSplit(text, starts[number]);
    NextLinesFrom(text, number);
    if number + 1 < |starts| {
      SplitIsLines(text, number + 1);
    } else {
      NextLinesFrom(text, number + 1);
      assert text[starts[number]..|text|] == text[starts[number]..];
    }
  }

  /** Line `k` of the index is piece `k` of the split. */
  lemma LinesOfText(text: bytes)
    ensures SplitFrom(text, 0) == LinesFrom(text, 0)
    ensures |SplitFrom(text, 0)| == |LineStarts(text)|
    ensures forall k :: 0 <= k < |LineStarts(text)| ==> SplitFrom(text, 0)[k] == LineText(text, k)
  {
    hide LineStarts, LineText, SplitFrom, LinesFrom;
    SplitIsLines(text, 0);
    LinesFromAt(text, 0, 0);
    forall k | 0 <= k < |LineStarts(text)|
      ensures SplitFrom(text, 0)[k] == LineText(text, k)
    {
      LinesFromAt(text, 0, k);
    }
  }
}
