/** The matchers of TTyUtils-Search, and the list of all matches. */
module Search {
  import opened Bytes
  import opened Grapheme
  import opened Clusters
  import opened LineIndexes
  import opened TextBuffer

  const STAR: byte := 0x2A
  const DOT: byte := 0x2E
  const DOLLAR: byte := 0x24
  const CARET: byte := 0x5E

  datatype Kind = Literal | Regex | Fuzzy

  datatype Query = Query(kind: Kind, text: bytes, caseSensitive: bool)

  /** `std::tolower` in the "C" locale. */
  function ToLower(b: byte): byte {
    if 0x41 <= b <= 0x5A then b + 0x20 else b
  }

  /** `detail::equal`. */
  predicate Same(left: byte, right: byte, caseSensitive: bool) {
    if caseSensitive then left == right else ToLower(left) == ToLower(right)
  }

  /** Without regard to case the two forms of an ASCII letter are the same, and nothing else is. */
  lemma SameLetters(a: byte, b: byte)
    ensures Same(a, b, false)
       <==> a == b || (0x41 <= a <= 0x5A && b == a + 0x20) || (0x41 <= b <= 0x5A && a == b + 0x20)
    ensures Same(a, b, true) <==> a == b
  {
  }

  // ----- the pattern matcher

  /** The pattern byte at `atom` accepts the text byte at `offset`; an escaped '.' is still a wildcard. */
  predicate AtomMatches(pattern: bytes, text: bytes, atom: nat, offset: nat, caseSensitive: bool)
    requires atom < |pattern|
  {
    offset < |text| && (pattern[atom] == DOT || Same(pattern[atom], text[offset], caseSensitive))
  }

  predicate Escaped(pattern: bytes, p: nat)
    requires p < |pattern|
  {
    pattern[p] == BACKSLASH && p + 1 < |pattern|
  }

  function AtomAt(pattern: bytes, p: nat): (atom: nat)
    requires p < |pattern|
    ensures p <= atom < |pattern|
  {
    if Escaped(pattern, p) then p + 1 else p
  }

  predicate Starred(pattern: bytes, next: nat) {
    next < |pattern| && pattern[next] == STAR
  }

  /** What matching `pattern[p..]` at offset t yields: the end of the match found first. */
  function RegexAt(pattern: bytes, text: bytes, p: nat, t: nat, caseSensitive: bool): (r: Option<nat>)
    requires p <= |pattern| && t <= |text|
    ensures r.Some? ==> t <= r.value <= |text|
    decreases |pattern| - p, |text| - t
  {
    if p == |pattern| then Some(t)
    else if pattern[p] == DOLLAR && p + 1 == |pattern| then (if t == |text| then Some(t) else None)
    else
      var atom := AtomAt(pattern, p);
      if Starred(pattern, atom + 1) then StarAt(pattern, text, atom, t, caseSensitive)
      else if !AtomMatches(pattern, text, atom, t, caseSensitive) then None
      else RegexAt(pattern, text, atom + 1, t + 1, caseSensitive)
  }

  /** The lazy loop of a starred atom: zero repetitions first, then one more at a time. */
  function StarAt(pattern: bytes, text: bytes, atom: nat, t: nat, caseSensitive: bool): (r: Option<nat>)
    requires atom + 1 < |pattern| && t <= |text|
    ensures r.Some? ==> t <= r.value <= |text|
    decreases |pattern| - atom - 1, |text| - t
  {
    var rest := RegexAt(pattern, text, atom + 2, t, caseSensitive);
    if rest.Some? then rest
    else if !AtomMatches(pattern, text, atom, t, caseSensitive) then None
    else StarAt(pattern, text, atom, t + 1, caseSensitive)
  }

  /** `detail::regex_at`. */
  method MatchRegex(pattern: bytes, text: bytes, patternAt: nat, textAt: nat, caseSensitive: bool)
    returns (end: Option<nat>)
    requires patternAt <= |pattern| && textAt <= |text|
    ensures end == RegexAt(pattern, text, patternAt, textAt, caseSensitive)
    decreases |pattern| - patternAt
  {
    if patternAt == |pattern| {
      return Some(textAt);
    }
    if pattern[patternAt] == DOLLAR && patternAt + 1 == |pattern| {
      return if textAt == |text| then Some(textAt) else None;
    }
    var escaped := pattern[patternAt] == BACKSLASH && patternAt + 1 < |pattern|;
    var atom := patternAt + if escaped then 1 else 0;
    var next := atom + 1;
    var star := next < |pattern| && pattern[next] == STAR;
    if star {
      var cursor := textAt;
      while cursor <= |text|
        invariant textAt <= cursor <= |text|
        invariant RegexAt(pattern, text, patternAt, textAt, caseSensitive)
               == StarAt(pattern, text, atom, cursor, caseSensitive)
        decreases |text| - cursor
      {
        var rest := MatchRegex(pattern, text, next + 1, cursor, caseSensitive);
        if rest.Some? {
          return rest;
        }
        if !AtomMatches(pattern, text, atom, cursor, caseSensitive) {
          break;
        }
        cursor := cursor + 1;
      }
      return None;
    }
    if !AtomMatches(pattern, text, atom, textAt, caseSensitive) {
      return None;
    }
    end := MatchRegex(pattern, text, next, textAt + 1, caseSensitive);
  }

  // ----- what a pattern means

  datatype Item = One(atom: byte) | Star(atom: byte) | AtEnd

  /** The pattern as a list of items: atoms, starred atoms, and a final `$`. */
  function Parse(pattern: bytes, p: nat): seq<Item>
    requires p <= |pattern|
    decreases |pattern| - p
  {
    if p == |pattern| then []
    else if pattern[p] == DOLLAR && p + 1 == |pattern| then [AtEnd]
    else
      var atom := AtomAt(pattern, p);
      if Starred(pattern, atom + 1) then [Star(pattern[atom])] + Parse(pattern, atom + 2)
      else [One(pattern[atom])] + Parse(pattern, atom + 1)
  }

  /** Only the last item can be the end of the text. */
  ghost predicate Writable(items: seq<Item>) {
    forall k :: 0 <= k < |items| && items[k] == AtEnd ==> k == |items| - 1
  }

  /** The pattern that spells the items: the bytes with a meaning of their own are escaped. */
  function Written(items: seq<Item>): bytes {
    if items == [] then []
    else WrittenItem(items[0]) + Written(items[1..])
  }

  function WrittenItem(item: Item): bytes {
    match item
    case AtEnd => [DOLLAR]
    case One(atom) => WrittenAtom(atom)
    case Star(atom) => WrittenAtom(atom) + [STAR]
  }

  function WrittenAtom(atom: byte): bytes {
    if atom in {BACKSLASH, DOLLAR, STAR} then [BACKSLASH, atom] else [atom]
  }

  lemma {:induction false} ParseSuffix(front: bytes, rest: bytes, p: nat)
    requires p <= |rest|
    ensures Parse(front + rest, |front| + p) == Parse(rest, p)
    decreases |rest| - p
  {
    hide Parse, AtomAt, Starred;
    ParseStep(rest, p);
    ParseStep(front + rest, |front| + p);
    if p < |rest| && !(rest[p] == DOLLAR && p + 1 == |rest|) {
      var atom := AtomAt(rest, p);
      AtomInSuffix(front, rest, p);
      ParseSuffix(front, rest, if Starred(rest, atom + 1) then atom + 2 else atom + 1);
    }
  }

  lemma ParseStep(pattern: bytes, p: nat)
    requires p <= |pattern|
    ensures Parse(pattern, p)
         == if p == |pattern| then []
            else if pattern[p] == DOLLAR && p + 1 == |pattern| then [AtEnd]
            else
              var atom := AtomAt(pattern, p);
              if Starred(pattern, atom + 1) then [Star(pattern[atom])] + Parse(pattern, atom + 2)
              else [One(pattern[atom])] + Parse(pattern, atom + 1)
    ensures p < |pattern| && Starred(pattern, AtomAt(pattern, p) + 1) ==> AtomAt(pattern, p) + 2 <= |pattern|
  {
    hide AtomAt;
  }

  lemma AtomInSuffix(front: bytes, rest: bytes, p: nat)
    requires p < |rest|
    ensures var atom := AtomAt(rest, p);
            && AtomAt(front + rest, |front| + p) == |front| + atom
            && Starred(front + rest, |front| + atom + 1) == Starred(rest, atom + 1)
  {
  }

  lemma ParseItem(item: Item, rest: bytes)
    requires item == AtEnd ==> rest == []
    requires rest != [] ==> rest[0] != STAR
    ensures Parse(WrittenItem(item) + rest, 0) == [item] + Parse(rest, 0)
  {
    ParseSuffix(WrittenItem(item), rest, 0);
  }

  /** A written pattern is parsed into the items it spells. */
  lemma {:induction false} ParseWritten(items: seq<Item>)
    requires Writable(items)
    ensures Parse(Written(items), 0) == items
  {
    hide Parse;
    if items == [] {
      ParseNothing();
    } else {
      ParseWritten(items[1..]);
      NoStarFirst(items[1..]);
      ParseItem(items[0], Written(items[1..]));
      assert items == [items[0]] + items[1..];
    }
  }

  lemma ParseNothing()
    ensures Parse([], 0) == []
  {
  }

  lemma NoStarFirst(items: seq<Item>)
    ensures Written(items) != [] ==> Written(items)[0] != STAR
  {
  }

  predicate Fits(atom: byte, b: byte, caseSensitive: bool) {
    atom == DOT || Same(atom, b, caseSensitive)
  }

  predicate FitsAll(atom: byte, text: bytes, from: nat, to: nat, caseSensitive: bool)
    requires from <= to <= |text|
  {
    forall k :: from <= k < to ==> Fits(atom, text[k], caseSensitive)
  }

  /** The items match text[t..e], the i-th star repeating counts[i] times. */
  ghost predicate Matches(items: seq<Item>, counts: seq<nat>, text: bytes, t: nat, e: nat, caseSensitive: bool)
    requires t <= |text|
    decreases |items|
  {
    if items == [] then counts == [] && e == t
    else
      match items[0]
      case One(atom) =>
        t < |text| && Fits(atom, text[t], caseSensitive) && Matches(items[1..], counts, text, t + 1, e, caseSensitive)
      case Star(atom) =>
        && counts != [] && t + counts[0] <= |text| && FitsAll(atom, text, t, t + counts[0], caseSensitive)
        && Matches(items[1..], counts[1..], text, t + counts[0], e, caseSensitive)
      case AtEnd =>
        t == |text| && Matches(items[1..], counts, text, t, e, caseSensitive)
  }

  /** Lexicographic order on repetition counts. */
  predicate LexLeq(a: seq<nat>, b: seq<nat>) {
    a == [] || (b != [] && (a[0] < b[0] || (a[0] == b[0] && LexLeq(a[1..], b[1..]))))
  }

  /** No way to match has lexicographically smaller counts. */
  ghost predicate Least(items: seq<Item>, counts: seq<nat>, text: bytes, t: nat, caseSensitive: bool)
    requires t <= |text|
  {
    forall other, e :: Matches(items, other, text, t, e, caseSensitive) ==> LexLeq(counts, other)
  }

  lemma MatchesBounds(items: seq<Item>, counts: seq<nat>, text: bytes, t: nat, e: nat, caseSensitive: bool)
    requires t <= |text| && Matches(items, counts, text, t, e, caseSensitive)
    ensures t <= e <= |text|
    decreases |items|
  {
    if items != [] {
      match items[0]
      case One(_) => MatchesBounds(items[1..], counts, text, t + 1, e, caseSensitive);
      case Star(_) => MatchesBounds(items[1..], counts[1..], text, t + counts[0], e, caseSensitive);
      case AtEnd => MatchesBounds(items[1..], counts, text, t, e, caseSensitive);
    }
  }

  /** `r` is the end of the match with the least counts, or None when there is no match at all. */
  ghost predicate Finds(items: seq<Item>, counts: seq<nat>, r: Option<nat>, text: bytes, t: nat, caseSensitive: bool)
    requires t <= |text|
  {
    if r.Some? then
      Matches(items, counts, text, t, r.value, caseSensitive) && Least(items, counts, text, t, caseSensitive)
    else forall other, e :: !Matches(items, other, text, t, e, caseSensitive)
  }

  /** One repetition less, one byte later. */
  lemma StarShift(atom: byte, rest: seq<Item>, counts: seq<nat>, text: bytes, t: nat, e: nat, caseSensitive: bool)
    requires t <= |text| && counts != []
    ensures var items := [Star(atom)] + rest;
            if counts[0] == 0
            then Matches(items, counts, text, t, e, caseSensitive)
                 <==> Matches(rest, counts[1..], text, t, e, caseSensitive)
            else Matches(items, counts, text, t, e, caseSensitive)
                 <==> t < |text| && Fits(atom, text[t], caseSensitive)
                      && Matches(items, [counts[0] - 1] + counts[1..], text, t + 1, e, caseSensitive)
  {
    var items := [Star(atom)] + rest;
    assert items[1..] == rest;
    if counts[0] > 0 {
      var fewer := [counts[0] - 1] + counts[1..];
      assert fewer[1..] == counts[1..];
      if t + counts[0] <= |text| {
        assert t + 1 + fewer[0] == t + counts[0];
        assert FitsAll(atom, text, t, t + counts[0], caseSensitive)
          <==> Fits(atom, text[t], caseSensitive) && FitsAll(atom, text, t + 1, t + counts[0], caseSensitive);
      }
    }
  }

  lemma StarZero(atom: byte, rest: seq<Item>, zero: seq<nat>, r: Option<nat>, text: bytes, t: nat, caseSensitive: bool)
    requires t <= |text| && r.Some? && Finds(rest, zero, r, text, t, caseSensitive)
    ensures Finds([Star(atom)] + rest, [0] + zero, r, text, t, caseSensitive)
  {
    hide Matches;
    var items, counts := [Star(atom)] + rest, [0] + zero;
    StarShift(atom, rest, counts, text, t, r.value, caseSensitive);
    assert counts[1..] == zero;
    forall other, e | Matches(items, other, text, t, e, caseSensitive)
      ensures LexLeq(counts, other)
    {
      StarNeedsCount(atom, rest, other, text, t, e, caseSensitive);
      StarShift(atom, rest, other, text, t, e, caseSensitive);
    }
  }

  lemma StarNeedsCount(atom: byte, rest: seq<Item>, counts: seq<nat>, text: bytes, t: nat, e: nat, caseSensitive: bool)
    requires t <= |text| && Matches([Star(atom)] + rest, counts, text, t, e, caseSensitive)
    ensures counts != []
  {
  }

  lemma StarMore(atom: byte, rest: seq<Item>, none: seq<nat>, more: seq<nat>, r: Option<nat>,
                 text: bytes, t: nat, caseSensitive: bool) returns (counts: seq<nat>)
    requires t < |text| && Fits(atom, text[t], caseSensitive)
    requires Finds(rest, none, None, text, t, caseSensitive)
    requires Finds([Star(atom)] + rest, more, r, text, t + 1, caseSensitive)
    ensures Finds([Star(atom)] + rest, counts, r, text, t, caseSensitive)
  {
    hide Matches;
    var items := [Star(atom)] + rest;
    if r.Some? {
      StarNeedsCount(atom, rest, more, text, t + 1, r.value, caseSensitive);
      counts := [more[0] + 1] + more[1..];
      assert [counts[0] - 1] + counts[1..] == more;
      StarShift(atom, rest, counts, text, t, r.value, caseSensitive);
    } else {
      counts := [];
    }
    forall other, e | Matches(items, other, text, t, e, caseSensitive)
      ensures r.Some? && LexLeq(counts, other)
    {
      StarNeedsCount(atom, rest, other, text, t, e, caseSensitive);
      StarShift(atom, rest, other, text, t, e, caseSensitive);
      var fewer := [other[0] - 1] + other[1..];
      assert Matches(items, fewer, text, t + 1, e, caseSensitive);
    }
  }

  lemma StarStop(atom: byte, rest: seq<Item>, none: seq<nat>, text: bytes, t: nat, caseSensitive: bool)
    requires t <= |text| && (t == |text| || !Fits(atom, text[t], caseSensitive))
    requires Finds(rest, none, None, text, t, caseSensitive)
    ensures Finds([Star(atom)] + rest, none, None, text, t, caseSensitive)
  {
    hide Matches;
    forall other, e | Matches([Star(atom)] + rest, other, text, t, e, caseSensitive)
      ensures false
    {
      StarNeedsCount(atom, rest, other, text, t, e, caseSensitive);
      StarShift(atom, rest, other, text, t, e, caseSensitive);
    }
  }

  lemma OneStep(atom: byte, rest: seq<Item>, counts: seq<nat>, r: Option<nat>, text: bytes, t: nat, caseSensitive: bool)
    requires t <= |text|
    requires t < |text| && Fits(atom, text[t], caseSensitive) ==> Finds(rest, counts, r, text, t + 1, caseSensitive)
    requires t == |text| || !Fits(atom, text[t], caseSensitive) ==> r == None
    ensures Finds([One(atom)] + rest, counts, r, text, t, caseSensitive)
  {
    var items := [One(atom)] + rest;
    assert items[1..] == rest;
  }

  /**
   * `regex_at` is sound and complete: it reports None exactly when no choice of repetition counts
   * matches, and otherwise the end of the match whose counts are lexicographically least.
   */
  lemma {:induction false} RegexFindsLeast(pattern: bytes, text: bytes, p: nat, t: nat, caseSensitive: bool)
    returns (counts: seq<nat>)
    requires p <= |pattern| && t <= |text|
    ensures Finds(Parse(pattern, p), counts, RegexAt(pattern, text, p, t, caseSensitive), text, t, caseSensitive)
    decreases |pattern| - p, |text| - t
  {
    hide Finds, Parse, RegexAt, AtomAt, Starred, AtomMatches;
    ParseStep(pattern, p);
    counts := [];
    if p == |pattern| || (pattern[p] == DOLLAR && p + 1 == |pattern|) {
      EndFinds(pattern, text, p, t, caseSensitive);
    } else {
      var atom := AtomAt(pattern, p);
      RegexStep(pattern, text, p, t, caseSensitive);
      if Starred(pattern, atom + 1) {
        counts := StarFindsLeast(pattern, text, atom, t, caseSensitive);
      } else {
        if AtomMatches(pattern, text, atom, t, caseSensitive) {
          counts := RegexFindsLeast(pattern, text, atom + 1, t + 1, caseSensitive);
        }
        AtomFits(pattern, text, atom, t, caseSensitive);
        OneStep(pattern[atom], Parse(pattern, atom + 1), counts, RegexAt(pattern, text, p, t, caseSensitive),
                text, t, caseSensitive);
      }
    }
  }

  lemma RegexStep(pattern: bytes, text: bytes, p: nat, t: nat, caseSensitive: bool)
    requires p < |pattern| && t <= |text| && !(pattern[p] == DOLLAR && p + 1 == |pattern|)
    ensures var atom := AtomAt(pattern, p);
            && (Starred(pattern, atom + 1) ==> atom + 1 < |pattern|)
            && (AtomMatches(pattern, text, atom, t, caseSensitive) ==> t < |text|)
            && RegexAt(pattern, text, p, t, caseSensitive)
               == if Starred(pattern, atom + 1) then StarAt(pattern, text, atom, t, caseSensitive)
                  else if !AtomMatches(pattern, text, atom, t, caseSensitive) then None
                  else RegexAt(pattern, text, atom + 1, t + 1, caseSensitive)
  {
    hide AtomAt, StarAt;
  }

  lemma AtomFits(pattern: bytes, text: bytes, atom: nat, t: nat, caseSensitive: bool)
    requires atom < |pattern| && t <= |text|
    ensures AtomMatches(pattern, text, atom, t, caseSensitive)
       <==> t < |text| && Fits(pattern[atom], text[t], caseSensitive)
  {
    hide Same;
  }

  lemma EndFinds(pattern: bytes, text: bytes, p: nat, t: nat, caseSensitive: bool)
    requires p <= |pattern| && t <= |text|
    requires p == |pattern| || (pattern[p] == DOLLAR && p + 1 == |pattern|)
    ensures Finds(Parse(pattern, p), [], RegexAt(pattern, text, p, t, caseSensitive), text, t, caseSensitive)
  {
  }

  lemma {:induction false} StarFindsLeast(pattern: bytes, text: bytes, atom: nat, t: nat, caseSensitive: bool)
    returns (counts: seq<nat>)
    requires atom + 1 < |pattern| && t <= |text|
    ensures Finds([Star(pattern[atom])] + Parse(pattern, atom + 2), counts,
                  StarAt(pattern, text, atom, t, caseSensitive), text, t, caseSensitive)
    decreases |pattern| - atom - 1, |text| - t
  {
    hide Finds, Parse;
    var rest := Parse(pattern, atom + 2);
    var here := RegexAt(pattern, text, atom + 2, t, caseSensitive);
    var zero := RegexFindsLeast(pattern, text, atom + 2, t, caseSensitive);
    if here.Some? {
      StarZero(pattern[atom], rest, zero, here, text, t, caseSensitive);
      counts := [0] + zero;
    } else if AtomMatches(pattern, text, atom, t, caseSensitive) {
      var more := StarFindsLeast(pattern, text, atom, t + 1, caseSensitive);
      counts := StarMore(pattern[atom], rest, zero, more, StarAt(pattern, text, atom, t + 1, caseSensitive),
                         text, t, caseSensitive);
    } else {
      StarStop(pattern[atom], rest, zero, text, t, caseSensitive);
      counts := zero;
    }
  }

  // ----- literal and fuzzy matching

  /** `detail::literal_at`. */
  function LiteralAt(text: bytes, offset: nat, query: Query): (r: Option<nat>)
    ensures r.Some? <==> offset + |query.text| <= |text|
                         && forall k :: 0 <= k < |query.text| ==>
                              Same(text[offset + k], query.text[k], query.caseSensitive)
    ensures r.Some? ==> r.value == offset + |query.text|
  {
    if offset + |query.text| <= |text| && LiteralFrom(text, offset, query, 0) then Some(offset + |query.text|) else None
  }

  predicate LiteralFrom(text: bytes, offset: nat, query: Query, k: nat)
    requires k <= |query.text| && offset + |query.text| <= |text|
    ensures LiteralFrom(text, offset, query, k)
       <==> forall l :: k <= l < |query.text| ==> Same(text[offset + l], query.text[l], query.caseSensitive)
    decreases |query.text| - k
  {
    k == |query.text|
    || (Same(text[offset + k], query.text[k], query.caseSensitive) && LiteralFrom(text, offset, query, k + 1))
  }

  method MatchLiteral(text: bytes, offset: nat, query: Query) returns (end: Option<nat>)
    ensures end == LiteralAt(text, offset, query)
  {
    if offset + |query.text| > |text| {
      return None;
    }
    var index := 0;
    while index < |query.text|
      invariant index <= |query.text|
      invariant forall k :: 0 <= k < index ==> Same(text[offset + k], query.text[k], query.caseSensitive)
    {
      if !Same(text[offset + index], query.text[index], query.caseSensitive) {
        return None;
      }
      index := index + 1;
    }
    return Some(offset + |query.text|);
  }

  function FirstSame(needle: byte, text: bytes, cursor: nat, caseSensitive: bool): (at: nat)
    requires cursor <= |text|
    ensures cursor <= at <= |text|
    ensures at < |text| ==> Same(needle, text[at], caseSensitive)
    ensures forall k :: cursor <= k < at ==> !Same(needle, text[k], caseSensitive)
    decreases |text| - cursor
  {
    if cursor == |text| || Same(needle, text[cursor], caseSensitive) then cursor
    else FirstSame(needle, text, cursor + 1, caseSensitive)
  }

  /** What a needle byte found at `at` adds to the score. */
  function Bonus(text: bytes, offset: nat, at: nat): int
    requires offset <= at <= |text|
  {
    if at == offset || !IsAlnum(text[at - 1]) then 10 else 1
  }

  function FuzzyFrom(needles: bytes, text: bytes, offset: nat, cursor: nat, score: int, caseSensitive: bool)
    : (r: Option<(nat, int)>)
    requires offset <= cursor <= |text|
    ensures r.Some? ==> cursor <= r.value.0 <= |text|
    decreases |needles|
  {
    if needles == [] then Some((cursor, score))
    else
      var at := FirstSame(needles[0], text, cursor, caseSensitive);
      if at == |text| then None
      else FuzzyFrom(needles[1..], text, offset, at + 1, score - (at - cursor) + Bonus(text, offset, at), caseSensitive)
  }

  lemma FuzzyStep(needles: bytes, text: bytes, offset: nat, cursor: nat, score: int, caseSensitive: bool)
    requires offset <= cursor <= |text|
    ensures FuzzyFrom(needles, text, offset, cursor, score, caseSensitive)
         == if needles == [] then Some((cursor, score))
            else
              var at := FirstSame(needles[0], text, cursor, caseSensitive);
              if at == |text| then None
              else
                FuzzyFrom(needles[1..], text, offset, at + 1, score - (at - cursor) + Bonus(text, offset, at),
                          caseSensitive)
  {
    hide FirstSame, Bonus;
  }

  /** `detail::fuzzy_at`. */
  method MatchFuzzy(text: bytes, offset: nat, query: Query) returns (r: Option<(nat, int)>)
    requires offset <= |text|
    ensures r == FuzzyFrom(query.text, text, offset, offset, 0, query.caseSensitive)
  {
    hide FuzzyFrom, Bonus, Same;
    var cursor, score := offset, 0;
    var k := 0;
    while k < |query.text|
      invariant k <= |query.text| && offset <= cursor <= |text|
      invariant FuzzyFrom(query.text[k..], text, offset, cursor, score, query.caseSensitive)
             == FuzzyFrom(query.text, text, offset, offset, 0, query.caseSensitive)
    {
      var needle := query.text[k];
      FuzzyStep(query.text[k..], text, offset, cursor, score, query.caseSensitive);
      ghost var from, before := cursor, score;
      while cursor < |text| && !Same(needle, text[cursor], query.caseSensitive)
        invariant from <= cursor <= |text| && score == before - (cursor - from)
        invariant FirstSame(needle, text, cursor, query.caseSensitive)
               == FirstSame(needle, text, from, query.caseSensitive)
      {
        cursor := cursor + 1;
        score := score - 1;
      }
      if cursor == |text| {
        return None;
      }
      score := score + Bonus(text, offset, cursor);
      cursor := cursor + 1;
      assert query.text[k..][1..] == query.text[k + 1..];
      k := k + 1;
    }
    FuzzyStep(query.text[k..], text, offset, cursor, score, query.caseSensitive);
    return Some((cursor, score));
  }

  /** Increasing positions from `from` on where the needle bytes stand in order. */
  ghost predicate Picks(needles: bytes, text: bytes, from: nat, p: seq<nat>, caseSensitive: bool) {
    && |p| == |needles|
    && (forall k :: 0 <= k < |p| ==> from <= p[k] < |text| && Same(needles[k], text[p[k]], caseSensitive))
    && (forall k, l :: 0 <= k < l < |p| ==> p[k] < p[l])
  }

  function EndOf(p: seq<nat>, from: nat): nat {
    if p == [] then from else p[|p| - 1] + 1
  }

  /** A choice for all needles is a choice for the first one and one for the rest. */
  lemma PicksSplit(needles: bytes, text: bytes, from: nat, q: seq<nat>, caseSensitive: bool)
    requires needles != [] && from <= |text| && Picks(needles, text, from, q, caseSensitive)
    ensures q != [] && FirstSame(needles[0], text, from, caseSensitive) <= q[0] < |text|
    ensures Picks(needles[1..], text, FirstSame(needles[0], text, from, caseSensitive) + 1, q[1..], caseSensitive)
  {
    assert Same(needles[0], text[q[0]], caseSensitive);
  }

  lemma PicksJoin(needles: bytes, text: bytes, from: nat, at: nat, rest: seq<nat>, caseSensitive: bool)
    requires needles != [] && from <= at < |text| && Same(needles[0], text[at], caseSensitive)
    requires Picks(needles[1..], text, at + 1, rest, caseSensitive)
    ensures Picks(needles, text, from, [at] + rest, caseSensitive)
    ensures EndOf([at] + rest, from) == EndOf(rest, at + 1)
  {
  }

  predicate NoLater(p: seq<nat>, q: seq<nat>) {
    |p| == |q| && forall k :: 0 <= k < |p| ==> p[k] <= q[k]
  }

  /** `r` ends the choice that has every byte as early as any choice has it, or is None when there is no choice. */
  ghost predicate Earliest(needles: bytes, text: bytes, from: nat, p: seq<nat>, r: Option<(nat, int)>,
                           caseSensitive: bool)
  {
    if r.Some? then
      && Picks(needles, text, from, p, caseSensitive) && r.value.0 == EndOf(p, from)
      && (forall q :: Picks(needles, text, from, q, caseSensitive) ==> NoLater(p, q))
    else forall q :: !Picks(needles, text, from, q, caseSensitive)
  }

  lemma EarliestStep(needles: bytes, text: bytes, from: nat, rest: seq<nat>, r: Option<(nat, int)>, caseSensitive: bool)
    returns (p: seq<nat>)
    requires needles != [] && from <= |text|
    requires var at := FirstSame(needles[0], text, from, caseSensitive);
             if at < |text| then Earliest(needles[1..], text, at + 1, rest, r, caseSensitive) else r == None
    ensures p == [FirstSame(needles[0], text, from, caseSensitive)] + rest
    ensures Earliest(needles, text, from, p, r, caseSensitive)
  {
    hide Picks, EndOf, NoLater;
    var at := FirstSame(needles[0], text, from, caseSensitive);
    p := [at] + rest;
    if r.Some? {
      PicksJoin(needles, text, from, at, rest, caseSensitive);
    }
    forall q | Picks(needles, text, from, q, caseSensitive)
      ensures r.Some? && NoLater(p, q)
    {
      PicksSplit(needles, text, from, q, caseSensitive);
      NoLaterCons(at, rest, q);
    }
  }

  lemma NoLaterCons(at: nat, rest: seq<nat>, q: seq<nat>)
    requires q != [] && at <= q[0]
    ensures NoLater(rest, q[1..]) ==> NoLater([at] + rest, q)
  {
  }

  /** What the chosen bytes add to the score. */
  function Bonuses(text: bytes, offset: nat, p: seq<nat>): int
    requires forall k :: 0 <= k < |p| ==> offset <= p[k] <= |text|
  {
    if p == [] then 0 else Bonus(text, offset, p[0]) + Bonuses(text, offset, p[1..])
  }

  /**
   * `fuzzy_at` finds the query as a subsequence whenever it is one, with every byte as early as any choice can.
   * The score is the sum of the bonuses less one for every byte passed over.
   */
  lemma {:induction false} FuzzyIsEarliest(needles: bytes, text: bytes, offset: nat, cursor: nat, score: int,
                                           caseSensitive: bool) returns (p: seq<nat>)
    requires offset <= cursor <= |text|
    ensures Earliest(needles, text, cursor, p, FuzzyFrom(needles, text, offset, cursor, score, caseSensitive),
                     caseSensitive)
    ensures forall k :: 0 <= k < |p| ==> offset <= p[k] <= |text|
    ensures var r := FuzzyFrom(needles, text, offset, cursor, score, caseSensitive);
            r.Some? ==> r.value.1 == score + Bonuses(text, offset, p) - (r.value.0 - cursor - |needles|)
    decreases |needles|
  {
    hide FuzzyFrom, Earliest, Same, Bonus, Bonuses, FirstSame;
    FuzzyStep(needles, text, offset, cursor, score, caseSensitive);
    if needles == [] {
      p := [];
      NothingEarliest(text, offset, cursor, score, caseSensitive);
    } else {
      var at := FirstSame(needles[0], text, cursor, caseSensitive);
      var rest: seq<nat> := [];
      if at < |text| {
        rest := FuzzyIsEarliest(needles[1..], text, offset, at + 1,
                                score - (at - cursor) + Bonus(text, offset, at), caseSensitive);
      }
      p := EarliestStep(needles, text, cursor, rest,
                        FuzzyFrom(needles, text, offset, cursor, score, caseSensitive), caseSensitive);
      BonusesCons(text, offset, at, rest);
    }
  }

  lemma NothingEarliest(text: bytes, offset: nat, cursor: nat, score: int, caseSensitive: bool)
    requires offset <= cursor <= |text|
    ensures Earliest([], text, cursor, [], Some((cursor, score)), caseSensitive) && Bonuses(text, offset, []) == 0
  {
  }

  lemma BonusesCons(text: bytes, offset: nat, at: nat, rest: seq<nat>)
    requires offset <= at <= |text| && forall k :: 0 <= k < |rest| ==> offset <= rest[k] <= |text|
    ensures Bonuses(text, offset, [at] + rest) == Bonus(text, offset, at) + Bonuses(text, offset, rest)
  {
    assert ([at] + rest)[1..] == rest;
  }

  // ----- all matches

  /** One match, by byte offsets. */
  datatype Hit = Hit(begin: nat, end: nat, score: int)

  /** One match, by positions. */
  datatype Match = Match(begin: Position, end: Position, score: int)

  predicate Anchored(query: Query) {
    query.kind == Regex && |query.text| > 0 && query.text[0] == CARET
  }

  /** The match, if any, that starts at `offset`: its end and score. */
  function MatchAt(query: Query, text: bytes, offset: nat): (r: Option<(nat, int)>)
    requires offset <= |text|
    ensures r.Some? ==> offset <= r.value.0 <= |text|
  {
    match query.kind
    case Literal =>
      var r := LiteralAt(text, offset, query);
      if r.Some? then Some((r.value, 0)) else None
    case Regex =>
      var pattern := if Anchored(query) then query.text[1..] else query.text;
      var r := RegexAt(pattern, text, 0, offset, query.caseSensitive);
      if r.Some? then Some((r.value, 0)) else None
    case Fuzzy => FuzzyFrom(query.text, text, offset, offset, 0, query.caseSensitive)
  }

  function HitsFrom(tab: Table, query: Query, text: bytes, offset: nat): (hits: seq<Hit>)
    requires offset <= |text|
    decreases |text| - offset
  {
    if offset == |text| then []
    else
      var m := MatchAt(query, text, offset);
      if m.Some? then
        var next := if m.value.0 > offset then m.value.0 else NextBreak(tab, text, offset);
        [Hit(offset, m.value.0, m.value.1)] + (if Anchored(query) then [] else HitsFrom(tab, query, text, next))
      else if Anchored(query) then []
      else HitsFrom(tab, query, text, NextBreak(tab, text, offset))
  }

  function Hits(tab: Table, query: Query, text: bytes): seq<Hit> {
    if query.text == [] then [] else HitsFrom(tab, query, text, 0)
  }

  function Located(tab: Table, text: bytes, hit: Hit): Match {
    Match(PositionOf(tab, text, hit.begin), PositionOf(tab, text, hit.end), hit.score)
  }

  function LocatedAll(tab: Table, text: bytes, hits: seq<Hit>): seq<Match> {
    seq(|hits|, i requires 0 <= i < |hits| => Located(tab, text, hits[i]))
  }

  /** The three-way choice in the loop of `find_all`. */
  method MatchOne(query: Query, text: bytes, offset: nat) returns (r: Option<(nat, int)>)
    requires offset <= |text|
    ensures r == MatchAt(query, text, offset)
  {
    match query.kind {
      case Literal =>
        var end := MatchLiteral(text, offset, query);
        return if end.Some? then Some((end.value, 0)) else None;
      case Regex =>
        var pattern := if Anchored(query) then query.text[1..] else query.text;
        var end := MatchRegex(pattern, text, 0, offset, query.caseSensitive);
        return if end.Some? then Some((end.value, 0)) else None;
      case Fuzzy =>
        r := MatchFuzzy(text, offset, query);
    }
  }

  lemma LocatedAppend(tab: Table, text: bytes, hits: seq<Hit>, hit: Hit)
    ensures LocatedAll(tab, text, hits + [hit]) == LocatedAll(tab, text, hits) + [Located(tab, text, hit)]
  {
  }

  /** `find_all`. */
  method FindAll(tab: Table, text: bytes, query: Query) returns (matches: seq<Match>)
    ensures matches == LocatedAll(tab, text, Hits(tab, query, text))
    ensures var hits := Hits(tab, query, text);
            && |matches| == |hits|
            && forall k :: 0 <= k < |hits| ==>
                 && matches[k].begin == PositionOf(tab, text, hits[k].begin)
                 && matches[k].end == PositionOf(tab, text, hits[k].end) && matches[k].score == hits[k].score
  {
    LocatedAre(tab, text, Hits(tab, query, text));
    hide MatchAt, LocatedAll, LineStarts, PositionIn, NextBreak;
    matches := [];
    ghost var hits: seq<Hit> := [];
    LocatedNothing(tab, text);
    var index := new LineIndex(tab, text);
    if query.text == [] {
      return;
    }
    var offset := 0;
    while offset < |text|
      invariant offset <= |text| && index.Valid() && index.starts == LineStarts(text) && index.tab == tab
      invariant matches == LocatedAll(tab, text, hits)
      invariant hits + HitsFrom(tab, query, text, offset) == HitsFrom(tab, query, text, 0)
      decreases |text| - offset
    {
      var m := MatchOne(query, text, offset);
      if m.Some? {
        var begin := index.Position(offset, text);
        var end := index.Position(m.value.0, text);
        matches := matches + [Match(begin, end, m.value.1)];
        LocatedAppend(tab, text, hits, Hit(offset, m.value.0, m.value.1));
        hits := hits + [Hit(offset, m.value.0, m.value.1)];
        if Anchored(query) {
          assert hits == HitsFrom(tab, query, text, 0);
          return;
        }
        if m.value.0 > offset {
          offset := m.value.0;
        } else {
          offset := FindNextBreak(tab, text, offset);
        }
      } else {
        if Anchored(query) {
          assert hits == HitsFrom(tab, query, text, 0);
          return;
        }
        offset := FindNextBreak(tab, text, offset);
      }
    }
    assert hits == HitsFrom(tab, query, text, 0);
  }

  lemma LocatedAre(tab: Table, text: bytes, hits: seq<Hit>)
    ensures var matches := LocatedAll(tab, text, hits);
            && |matches| == |hits|
            && forall k :: 0 <= k < |hits| ==>
                 && matches[k].begin == PositionOf(tab, text, hits[k].begin)
                 && matches[k].end == PositionOf(tab, text, hits[k].end) && matches[k].score == hits[k].score
  {
    hide PositionOf;
  }

  lemma LocatedNothing(tab: Table, text: bytes)
    ensures LocatedAll(tab, text, []) == []
  {
  }

  // ----- what a match is, query by query

  /** The pattern of a regex query: a leading '^' only anchors it. */
  function Unanchored(pattern: bytes): bytes {
    if pattern != [] && pattern[0] == CARET then pattern[1..] else pattern
  }

  /** How many of the chosen bytes are the first of the match or come after a byte that is no letter or digit. */
  function WordStarts(text: bytes, begin: nat, p: seq<nat>): nat
    requires forall k :: 0 <= k < |p| ==> begin <= p[k] <= |text|
  {
    if p == [] then 0
    else (if p[0] == begin || !IsAlnum(text[p[0] - 1]) then 1 else 0) + WordStarts(text, begin, p[1..])
  }

  /** The choice of a fuzzy match: ten for each such byte, one for each other, less one for each byte passed over. */
  ghost predicate Chosen(query: Query, text: bytes, begin: nat, end: nat, score: int, p: seq<nat>) {
    && Earliest(query.text, text, begin, p, Some((end, score)), query.caseSensitive)
    && (forall k :: 0 <= k < |p| ==> begin <= p[k] <= |text|)
    && score == |p| + 9 * WordStarts(text, begin, p) - (end - begin - |p|)
  }

  /** text[begin..end] is the match of the query that starts at `begin`, and this is its score. */
  ghost predicate IsMatch(query: Query, text: bytes, begin: nat, end: nat, score: int)
    requires begin <= |text|
  {
    match query.kind
    case Literal =>
      && score == 0 && end == begin + |query.text| && end <= |text|
      && forall k :: 0 <= k < |query.text| ==> Same(text[begin + k], query.text[k], query.caseSensitive)
    case Regex =>
      && score == 0
      && exists counts ::
           Finds(Parse(Unanchored(query.text), 0), counts, Some(end), text, begin, query.caseSensitive)
    case Fuzzy => exists p :: Chosen(query, text, begin, end, score, p)
  }

  ghost predicate MatchesAt(query: Query, text: bytes, begin: nat)
    requires begin <= |text|
  {
    exists end: nat, score: int :: IsMatch(query, text, begin, end, score)
  }

  lemma {:induction false} LexLeqBoth(a: seq<nat>, b: seq<nat>)
    requires LexLeq(a, b) && LexLeq(b, a)
    ensures a == b
  {
    if a != [] {
      LexLeqBoth(a[1..], b[1..]);
      assert a == [a[0]] + a[1..] && b == [b[0]] + b[1..];
    }
  }

  lemma {:induction false} CountsGiveEnd(items: seq<Item>, counts: seq<nat>, text: bytes, t: nat, d: nat, e: nat,
                                         caseSensitive: bool)
    requires t <= |text| && Matches(items, counts, text, t, d, caseSensitive)
    requires Matches(items, counts, text, t, e, caseSensitive)
    ensures d == e
    decreases |items|
  {
    if items != [] {
      match items[0]
      case One(_) => CountsGiveEnd(items[1..], counts, text, t + 1, d, e, caseSensitive);
      case Star(_) => CountsGiveEnd(items[1..], counts[1..], text, t + counts[0], d, e, caseSensitive);
      case AtEnd => CountsGiveEnd(items[1..], counts, text, t, d, e, caseSensitive);
    }
  }

  /** The least counts, and so the end, are unique. */
  lemma FoundOnce(items: seq<Item>, a: seq<nat>, r: Option<nat>, b: seq<nat>, s: Option<nat>, text: bytes, t: nat,
                  caseSensitive: bool)
    requires t <= |text| && Finds(items, a, r, text, t, caseSensitive) && Finds(items, b, s, text, t, caseSensitive)
    ensures r == s
  {
    hide Matches;
    if r.Some? && s.Some? {
      LexLeqBoth(a, b);
      CountsGiveEnd(items, a, text, t, r.value, s.value, caseSensitive);
    }
  }

  lemma NoLaterBoth(p: seq<nat>, q: seq<nat>)
    requires NoLater(p, q) && NoLater(q, p)
    ensures p == q
  {
  }

  lemma ChosenOnce(query: Query, text: bytes, begin: nat, d: nat, s: int, p: seq<nat>, r: Option<(nat, int)>,
                   q: seq<nat>)
    requires Chosen(query, text, begin, d, s, p) && Earliest(query.text, text, begin, q, r, query.caseSensitive)
    ensures r.Some? && r.value.0 == d && p == q
  {
    hide Picks, NoLater;
    assert r.Some?;
    NoLaterBoth(p, q);
  }

  lemma {:induction false} BonusesAre(text: bytes, begin: nat, p: seq<nat>)
    requires forall k :: 0 <= k < |p| ==> begin <= p[k] <= |text|
    ensures Bonuses(text, begin, p) == |p| + 9 * WordStarts(text, begin, p)
  {
    if p != [] {
      BonusesAre(text, begin, p[1..]);
    }
  }

  lemma FuzzyMeans(query: Query, text: bytes, begin: nat, end: nat, score: int)
    requires query.kind == Fuzzy && begin <= |text|
    ensures IsMatch(query, text, begin, end, score) <==> MatchAt(query, text, begin) == Some((end, score))
  {
    hide FuzzyFrom, Earliest, Bonuses, WordStarts;
    var r := MatchAt(query, text, begin);
    var p := FuzzyIsEarliest(query.text, text, begin, begin, 0, query.caseSensitive);
    BonusesAre(text, begin, p);
    if r.Some? {
      ChoiceLength(query.text, text, begin, p, r, query.caseSensitive);
      assert Chosen(query, text, begin, r.value.0, r.value.1, p);
    }
    if q :| Chosen(query, text, begin, end, score, q) {
      ChosenOnce(query, text, begin, end, score, q, r, p);
    }
  }

  lemma ChoiceLength(needles: bytes, text: bytes, from: nat, p: seq<nat>, r: Option<(nat, int)>, caseSensitive: bool)
    requires r.Some? && Earliest(needles, text, from, p, r, caseSensitive)
    ensures |p| == |needles|
  {
  }

  lemma RegexMeans(query: Query, text: bytes, begin: nat, end: nat, score: int)
    requires query.kind == Regex && begin <= |text|
    ensures IsMatch(query, text, begin, end, score) <==> MatchAt(query, text, begin) == Some((end, score))
  {
    hide RegexAt, Finds, Parse;
    var pattern := Unanchored(query.text);
    var items, found := Parse(pattern, 0), RegexAt(pattern, text, 0, begin, query.caseSensitive);
    var counts := RegexFindsLeast(pattern, text, 0, begin, query.caseSensitive);
    if other :| Finds(items, other, Some(end), text, begin, query.caseSensitive) {
      FoundOnce(items, counts, found, other, Some(end), text, begin, query.caseSensitive);
    }
  }

  /** What the choice of a matcher by the kind of query, and each matcher, come to. */
  lemma MatchAtMeans(query: Query, text: bytes, begin: nat, end: nat, score: int)
    requires begin <= |text|
    ensures IsMatch(query, text, begin, end, score) <==> MatchAt(query, text, begin) == Some((end, score))
  {
    hide IsMatch;
    match query.kind
    case Literal => LiteralMeans(query, text, begin, end, score);
    case Regex => RegexMeans(query, text, begin, end, score);
    case Fuzzy => FuzzyMeans(query, text, begin, end, score);
  }

  lemma LiteralMeans(query: Query, text: bytes, begin: nat, end: nat, score: int)
    requires query.kind == Literal && begin <= |text|
    ensures IsMatch(query, text, begin, end, score) <==> MatchAt(query, text, begin) == Some((end, score))
  {
    hide Same;
  }

  lemma SomeMatch(query: Query, text: bytes, begin: nat)
    requires begin <= |text|
    ensures MatchesAt(query, text, begin) <==> MatchAt(query, text, begin).Some?
  {
    hide IsMatch, MatchAt;
    if MatchesAt(query, text, begin) {
      var end: nat, score: int :| IsMatch(query, text, begin, end, score);
      MatchAtMeans(query, text, begin, end, score);
    }
    var r := MatchAt(query, text, begin);
    if r.Some? {
      MatchAtMeans(query, text, begin, r.value.0, r.value.1);
    }
  }

  // ----- what the list of matches means

  /** The hits are real, and each starts at or after the end of the one before it. */
  ghost predicate HitsOk(query: Query, text: bytes, hits: seq<Hit>, from: nat) {
    && (forall i :: 0 <= i < |hits| ==>
          && from <= hits[i].begin <= hits[i].end <= |text|
          && IsMatch(query, text, hits[i].begin, hits[i].end, hits[i].score))
    && (forall i, j :: 0 <= i < j < |hits| ==> hits[i].end <= hits[j].begin && hits[i].begin < hits[j].begin)
  }

  lemma {:induction false} HitsAreMatches(tab: Table, query: Query, text: bytes, offset: nat)
    requires offset <= |text|
    ensures HitsOk(query, text, HitsFrom(tab, query, text, offset), offset)
    decreases |text| - offset
  {
    hide MatchAt, NextBreak, IsMatch;
    if offset < |text| {
      var m := MatchAt(query, text, offset);
      if m.Some? {
        MatchAtMeans(query, text, offset, m.value.0, m.value.1);
      }
      var next := if m.Some? && m.value.0 > offset then m.value.0 else NextBreak(tab, text, offset);
      HitsAreMatches(tab, query, text, next);
    }
  }

  /** The match that could start at `at` was reported, or lies inside one that was. */
  ghost predicate Accounted(hits: seq<Hit>, at: nat) {
    exists i :: 0 <= i < |hits| && hits[i].begin <= at && (at == hits[i].begin || at < hits[i].end)
  }

  /** Where the scan of a query that is not anchored goes on from `offset`. */
  function NextTry(tab: Table, query: Query, text: bytes, offset: nat): (next: nat)
    requires offset < |text|
    ensures offset < next <= |text|
  {
    var m := MatchAt(query, text, offset);
    if m.Some? && m.value.0 > offset then m.value.0 else NextBreak(tab, text, offset)
  }

  /** The scan that starts at `offset` tries to match at `o`. */
  predicate Tries(tab: Table, query: Query, text: bytes, offset: nat, o: nat)
    requires offset <= |text|
    decreases |text| - offset
  {
    offset < |text| && (o == offset || Tries(tab, query, text, NextTry(tab, query, text, offset), o))
  }

  /** The scan finds no bytes at `o`, and its step from there by a cluster passes over `at`. */
  ghost predicate PassesOver(tab: Table, query: Query, text: bytes, o: nat, at: nat) {
    && o < at < |text| && at < NextBreak(tab, text, o)
    && forall end: nat, score: int :: IsMatch(query, text, o, end, score) ==> end == o
  }

  lemma PassesByMatch(tab: Table, query: Query, text: bytes, o: nat, at: nat)
    ensures PassesOver(tab, query, text, o, at)
       <==> o < at < |text| && at < NextBreak(tab, text, o)
            && var m := MatchAt(query, text, o); m.Some? ==> m.value.0 == o
  {
    hide MatchAt, IsMatch, NextBreak;
    if o < |text| {
      var m := MatchAt(query, text, o);
      if m.Some? {
        MatchAtMeans(query, text, o, m.value.0, m.value.1);
      }
      forall end: nat, score: int | IsMatch(query, text, o, end, score)
        ensures m == Some((end, score))
      {
        MatchAtMeans(query, text, o, end, score);
      }
    }
  }

  /** The scan tries to match at the start of a cluster that `at` lies inside. */
  ghost predicate SteppedOver(tab: Table, query: Query, text: bytes, offset: nat, at: nat)
    requires offset <= |text|
  {
    exists o :: 0 <= o < at && Tries(tab, query, text, offset, o) && PassesOver(tab, query, text, o, at)
  }

  lemma {:induction false} TriesFrom(tab: Table, query: Query, text: bytes, offset: nat, o: nat)
    requires offset <= |text| && Tries(tab, query, text, offset, o)
    ensures offset <= o < |text|
    decreases |text| - offset
  {
    hide NextTry;
    if o != offset {
      TriesFrom(tab, query, text, NextTry(tab, query, text, offset), o);
    }
  }

  lemma NextHits(tab: Table, query: Query, text: bytes, offset: nat)
    requires !Anchored(query) && offset < |text|
    ensures var m, rest := MatchAt(query, text, offset),
                           HitsFrom(tab, query, text, NextTry(tab, query, text, offset));
            HitsFrom(tab, query, text, offset)
            == if m.Some? then [Hit(offset, m.value.0, m.value.1)] + rest else rest
  {
    hide MatchAt, NextBreak, Anchored;
  }

  lemma AccountedCons(hit: Hit, rest: seq<Hit>, at: nat)
    ensures Accounted([hit] + rest, at)
       <==> (hit.begin <= at && (at == hit.begin || at < hit.end)) || Accounted(rest, at)
  {
    var hits := [hit] + rest;
    if Accounted(rest, at) {
      var i :| 0 <= i < |rest| && rest[i].begin <= at && (at == rest[i].begin || at < rest[i].end);
      assert hits[i + 1] == rest[i];
    }
    if Accounted(hits, at) {
      var i :| 0 <= i < |hits| && hits[i].begin <= at && (at == hits[i].begin || at < hits[i].end);
      assert i > 0 ==> rest[i - 1] == hits[i];
    } else {
      assert hits[0] == hit;
    }
  }

  lemma SteppedOverNext(tab: Table, query: Query, text: bytes, offset: nat, at: nat)
    requires offset < |text|
    ensures SteppedOver(tab, query, text, offset, at)
       <==> (PassesOver(tab, query, text, offset, at)
             || SteppedOver(tab, query, text, NextTry(tab, query, text, offset), at))
  {
    hide MatchAt, NextBreak, PassesOver, NextTry;
    var next := NextTry(tab, query, text, offset);
    if SteppedOver(tab, query, text, next, at) {
      var o :| 0 <= o < at && Tries(tab, query, text, next, o) && PassesOver(tab, query, text, o, at);
      assert Tries(tab, query, text, offset, o);
    }
    if PassesOver(tab, query, text, offset, at) {
      PassesBefore(tab, query, text, offset, at);
      assert Tries(tab, query, text, offset, offset);
    }
  }

  lemma PassesBefore(tab: Table, query: Query, text: bytes, o: nat, at: nat)
    requires PassesOver(tab, query, text, o, at)
    ensures o < at < |text|
  {
  }

  /** Before its start a scan neither reports nor passes over anything. */
  lemma NothingBefore(tab: Table, query: Query, text: bytes, offset: nat, at: nat)
    requires at < offset <= |text|
    ensures !Accounted(HitsFrom(tab, query, text, offset), at) && !SteppedOver(tab, query, text, offset, at)
  {
    hide MatchAt, NextBreak, HitsFrom, Tries, PassesOver;
    HitsAreMatches(tab, query, text, offset);
    if SteppedOver(tab, query, text, offset, at) {
      var o :| 0 <= o < at && Tries(tab, query, text, offset, o) && PassesOver(tab, query, text, o, at);
      TriesFrom(tab, query, text, offset, o);
    }
  }

  /**
   * Where a match starts, the scan of a query that is not anchored reports it or one that holds its
   * start, except exactly when it steps over it inside a cluster at whose start it found no bytes.
   */
  lemma {:induction false} NoMatchMissed(tab: Table, query: Query, text: bytes, offset: nat, at: nat)
    requires !Anchored(query) && offset <= at < |text| && MatchesAt(query, text, at)
    ensures Accounted(HitsFrom(tab, query, text, offset), at) <==> !SteppedOver(tab, query, text, offset, at)
    decreases |text| - offset
  {
    hide MatchAt, NextBreak, HitsFrom, Tries, Accounted, SteppedOver, Anchored, MatchesAt, PassesOver;
    SomeMatch(query, text, at);
    PassesByMatch(tab, query, text, offset, at);
    var m, next := MatchAt(query, text, offset), NextTry(tab, query, text, offset);
    NextHits(tab, query, text, offset);
    SteppedOverNext(tab, query, text, offset, at);
    if m.Some? {
      AccountedCons(Hit(offset, m.value.0, m.value.1), HitsFrom(tab, query, text, next), at);
    }
    if at < next {
      NothingBefore(tab, query, text, next, at);
    } else {
      NoMatchMissed(tab, query, text, next, at);
    }
  }

  /** Where bytes never join, none is. */
  lemma NoPlainMatchMissed(tab: Table, alphabet: set<byte>, query: Query, text: bytes, at: nat)
    requires Plain(tab, alphabet) && Over(alphabet, text) && !Anchored(query) && query.text != []
    requires at < |text| && MatchesAt(query, text, at)
    ensures Accounted(Hits(tab, query, text), at)
  {
    hide MatchAt, NextBreak, HitsFrom, Accounted, Tries, MatchesAt;
    NoMatchMissed(tab, query, text, 0, at);
    if SteppedOver(tab, query, text, 0, at) {
      var o :| 0 <= o < at && Tries(tab, query, text, 0, o) && PassesOver(tab, query, text, o, at);
      PlainBreak(tab, alphabet, text, o);
    }
  }

  /** The hits are exactly the matches at the places that the scan tries. */
  lemma {:induction false} HitsWhereTried(tab: Table, query: Query, text: bytes, offset: nat, o: nat, end: nat,
                                          score: int)
    requires !Anchored(query) && offset <= |text| && o <= |text|
    ensures Hit(o, end, score) in HitsFrom(tab, query, text, offset)
       <==> Tries(tab, query, text, offset, o) && IsMatch(query, text, o, end, score)
    decreases |text| - offset
  {
    hide MatchAt, NextBreak, HitsFrom, Anchored, IsMatch, NextTry;
    if offset == |text| {
      NoHitsAtEnd(tab, query, text);
    } else {
      var m, next := MatchAt(query, text, offset), NextTry(tab, query, text, offset);
      NextHits(tab, query, text, offset);
      HitsWhereTried(tab, query, text, next, o, end, score);
      MatchAtMeans(query, text, offset, end, score);
      if o == offset && Tries(tab, query, text, next, o) {
        TriesFrom(tab, query, text, next, o);
      }
    }
  }

  lemma NoHitsAtEnd(tab: Table, query: Query, text: bytes)
    ensures HitsFrom(tab, query, text, |text|) == []
  {
  }

  /** Where a scan goes on: behind a match that holds bytes, and otherwise at the next cluster. */
  lemma NextTryIs(tab: Table, query: Query, text: bytes, offset: nat, end: nat, score: int)
    requires offset < |text|
    ensures IsMatch(query, text, offset, end, score) && end > offset ==> NextTry(tab, query, text, offset) == end
    ensures IsMatch(query, text, offset, offset, score) || !MatchesAt(query, text, offset) ==>
              NextTry(tab, query, text, offset) == NextBreak(tab, text, offset)
  {
    hide MatchAt, NextBreak, IsMatch, MatchesAt;
    SomeMatch(query, text, offset);
    MatchAtMeans(query, text, offset, end, score);
    MatchAtMeans(query, text, offset, offset, score);
  }

  /** An anchored query has one hit, the match at the start of the text, or none. */
  lemma AnchoredHits(tab: Table, query: Query, text: bytes)
    requires query.kind == Regex && query.text != [] && query.text[0] == CARET && text != []
    ensures forall end: nat, score: int ::
              IsMatch(query, text, 0, end, score) ==> Hits(tab, query, text) == [Hit(0, end, score)]
    ensures !MatchesAt(query, text, 0) ==> Hits(tab, query, text) == []
  {
    hide MatchAt, NextBreak, IsMatch, MatchesAt;
    SomeMatch(query, text, 0);
    forall end: nat, score: int | IsMatch(query, text, 0, end, score)
      ensures Hits(tab, query, text) == [Hit(0, end, score)]
    {
      MatchAtMeans(query, text, 0, end, score);
    }
  }
}
