/** The command history of TTyUtils-HistoryFile: one record per line, and the list kept in memory. */
module HistoryFile {
  import opened Bytes
  import opened Decimal

  datatype Entry = Entry(text: bytes, timestamp: bytes, cwd: bytes, status: int)

  datatype Merge = All | Adjacent | Never

  // ----- duplicates

  predicate HasText(entries: seq<Entry>, text: bytes) {
    exists i :: 0 <= i < |entries| && entries[i].text == text
  }

  /** Whether `dedup` drops the entry when it has kept `kept` so far. */
  predicate Duplicate(kept: seq<Entry>, entry: Entry, policy: Merge) {
    match policy
    case Adjacent => kept != [] && kept[|kept| - 1].text == entry.text
    case All => HasText(kept, entry.text)
    case Never => false
  }

  function DedupFrom(kept: seq<Entry>, entries: seq<Entry>, policy: Merge): seq<Entry>
    decreases |entries|
  {
    if entries == [] then kept
    else DedupFrom(if Duplicate(kept, entries[0], policy) then kept else kept + [entries[0]], entries[1..], policy)
  }

  function Deduped(entries: seq<Entry>, policy: Merge): seq<Entry> {
    DedupFrom([], entries, policy)
  }

  /** `dedup`. */
  method Dedup(entries: seq<Entry>, policy: Merge) returns (result: seq<Entry>)
    ensures result == Deduped(entries, policy)
  {
    hide Duplicate;
    if policy == Never {
      NothingDropped([], entries);
      assert [] + entries == entries;
      return entries;
    }
    result := [];
    for i := 0 to |entries|
      invariant DedupFrom(result, entries[i..], policy) == Deduped(entries, policy)
    {
      assert entries[i..][1..] == entries[i + 1..];
      if !Duplicate(result, entries[i], policy) {
        result := result + [entries[i]];
      }
    }
    assert entries[|entries|..] == [];
  }

  lemma {:induction false} NothingDropped(kept: seq<Entry>, entries: seq<Entry>)
    ensures DedupFrom(kept, entries, Never) == kept + entries
    decreases |entries|
  {
    if entries != [] {
      NothingDropped(kept + [entries[0]], entries[1..]);
      assert kept + [entries[0]] + entries[1..] == kept + entries;
    }
  }

  lemma {:induction false} DedupAppend(kept: seq<Entry>, a: seq<Entry>, b: seq<Entry>, policy: Merge)
    ensures DedupFrom(kept, a + b, policy) == DedupFrom(DedupFrom(kept, a, policy), b, policy)
    decreases |a|
  {
    hide Duplicate;
    if a == [] {
      assert a + b == b;
    } else {
      assert (a + b)[1..] == a[1..] + b;
      DedupAppend(if Duplicate(kept, a[0], policy) then kept else kept + [a[0]], a[1..], b, policy);
    }
  }

  /** What has been kept contains no duplicates, so dedup leaves it alone. */
  ghost predicate NoDuplicates(entries: seq<Entry>, policy: Merge) {
    forall i :: 0 <= i < |entries| ==> !Duplicate(entries[..i], entries[i], policy)
  }

  lemma {:induction false} DedupHasNoDuplicates(kept: seq<Entry>, entries: seq<Entry>, policy: Merge)
    requires NoDuplicates(kept, policy)
    ensures NoDuplicates(DedupFrom(kept, entries, policy), policy)
    decreases |entries|
  {
    hide Duplicate;
    if entries != [] {
      var next := if Duplicate(kept, entries[0], policy) then kept else kept + [entries[0]];
      assert forall i :: 0 <= i < |kept| ==> (kept + [entries[0]])[..i] == kept[..i];
      assert (kept + [entries[0]])[..|kept|] == kept;
      DedupHasNoDuplicates(next, entries[1..], policy);
    }
  }

  lemma {:induction false} NoDuplicatesStay(entries: seq<Entry>, n: nat, policy: Merge)
    requires NoDuplicates(entries, policy) && n <= |entries|
    ensures DedupFrom(entries[..n], entries[n..], policy) == entries
    decreases |entries| - n
  {
    hide Duplicate;
    if n == |entries| {
      assert entries[..n] == entries && entries[n..] == [];
    } else {
      assert entries[n..][1..] == entries[n + 1..];
      assert entries[..n] + [entries[n]] == entries[..n + 1];
      NoDuplicatesStay(entries, n + 1, policy);
    }
  }

  /** Removing duplicates twice removes no more, even with an entry added in between. */
  lemma DedupAgain(entries: seq<Entry>, entry: Entry, policy: Merge)
    ensures Deduped(Deduped(entries, policy) + [entry], policy) == Deduped(entries + [entry], policy)
    ensures Deduped(Deduped(entries, policy), policy) == Deduped(entries, policy)
  {
    hide DedupFrom, Duplicate;
    var once := Deduped(entries, policy);
    DedupHasNoDuplicates([], entries, policy);
    NoDuplicatesStay(once, 0, policy);
    assert once[..0] == [] && once[0..] == once;
    DedupAppend([], once, [entry], policy);
    DedupAppend([], entries, [entry], policy);
  }

  /** Under the policy All every text is kept exactly once; under Adjacent no two neighbours share one. */
  lemma DedupKeeps(entries: seq<Entry>)
    ensures var all := Deduped(entries, All);
            forall i, j :: 0 <= i < j < |all| ==> all[i].text != all[j].text
    ensures var adjacent := Deduped(entries, Adjacent);
            forall i :: 0 < i < |adjacent| ==> adjacent[i - 1].text != adjacent[i].text
  {
    DedupHasNoDuplicates([], entries, All);
    DedupHasNoDuplicates([], entries, Adjacent);
    var all, adjacent := Deduped(entries, All), Deduped(entries, Adjacent);
    forall i, j | 0 <= i < j < |all|
      ensures all[i].text != all[j].text
    {
      assert all[..j][i] == all[i];
      assert !HasText(all[..j], all[j].text);
    }
    forall i | 0 < i < |adjacent|
      ensures adjacent[i - 1].text != adjacent[i].text
    {
      assert adjacent[..i][i - 1] == adjacent[i - 1];
    }
  }

  /** The first entry with each text, among the first n. */
  ghost function FirstOnes(entries: seq<Entry>, n: nat): seq<Entry>
    requires n <= |entries|
  {
    if n == 0 then []
    else
      FirstOnes(entries, n - 1)
      + if exists j :: 0 <= j < n - 1 && entries[j].text == entries[n - 1].text then [] else [entries[n - 1]]
  }

  /** The first entry of each run with one text, among the first n. */
  ghost function RunHeads(entries: seq<Entry>, n: nat): seq<Entry>
    requires n <= |entries|
  {
    if n == 0 then []
    else
      RunHeads(entries, n - 1)
      + if n > 1 && entries[n - 2].text == entries[n - 1].text then [] else [entries[n - 1]]
  }

  lemma DedupOneMore(entries: seq<Entry>, n: nat, policy: Merge)
    requires n < |entries|
    ensures var kept := Deduped(entries[..n], policy);
            Deduped(entries[..n + 1], policy)
            == if Duplicate(kept, entries[n], policy) then kept else kept + [entries[n]]
  {
    hide Duplicate;
    assert entries[..n + 1] == entries[..n] + [entries[n]];
    DedupAppend([], entries[..n], [entries[n]], policy);
    var kept := Deduped(entries[..n], policy);
    assert [entries[n]][1..] == [];
    assert DedupFrom(kept, [entries[n]], policy)
        == DedupFrom(if Duplicate(kept, entries[n], policy) then kept else kept + [entries[n]], [], policy);
  }

  lemma NothingDeduped(entries: seq<Entry>, policy: Merge)
    ensures Deduped(entries[..0], policy) == []
  {
  }

  lemma {:induction false} DedupAll(entries: seq<Entry>, n: nat)
    requires n <= |entries|
    ensures Deduped(entries[..n], All) == FirstOnes(entries, n)
    ensures forall text: bytes :: HasText(FirstOnes(entries, n), text) <==> HasText(entries[..n], text)
  {
    hide Deduped, HasText;
    if n == 0 {
      NothingDeduped(entries, All);
      assert entries[..0] == [];
    } else {
      DedupAll(entries, n - 1);
      DedupOneMore(entries, n - 1, All);
      var kept, entry := FirstOnes(entries, n - 1), entries[n - 1];
      HasTextBefore(entries, n - 1, entry.text);
      assert Duplicate(kept, entry, All) <==> HasText(kept, entry.text);
      forall text: bytes
        ensures HasText(FirstOnes(entries, n), text) <==> HasText(entries[..n], text)
      {
        HasTextSnoc(kept, entry, text);
        HasTextSnoc(entries[..n - 1], entry, text);
        assert entries[..n] == entries[..n - 1] + [entry];
        assert kept + [] == kept;
      }
    }
  }

  lemma HasTextSnoc(entries: seq<Entry>, entry: Entry, text: bytes)
    ensures HasText(entries + [entry], text) <==> HasText(entries, text) || entry.text == text
  {
    var longer := entries + [entry];
    if HasText(entries, text) {
      var i :| 0 <= i < |entries| && entries[i].text == text;
      assert longer[i].text == text;
    }
    assert longer[|entries|] == entry;
  }

  lemma HasTextBefore(entries: seq<Entry>, n: nat, text: bytes)
    requires n <= |entries|
    ensures HasText(entries[..n], text) <==> exists j :: 0 <= j < n && entries[j].text == text
  {
    if j :| 0 <= j < n && entries[j].text == text {
      assert entries[..n][j].text == text;
    }
  }

  lemma {:induction false} DedupAdjacent(entries: seq<Entry>, n: nat)
    requires n <= |entries|
    ensures Deduped(entries[..n], Adjacent) == RunHeads(entries, n)
    ensures n > 0 ==> RunHeads(entries, n) != []
    ensures n > 0 ==> RunHeads(entries, n)[|RunHeads(entries, n)| - 1].text == entries[n - 1].text
  {
    hide Deduped;
    if n == 0 {
      NothingDeduped(entries, Adjacent);
    } else {
      DedupAdjacent(entries, n - 1);
      DedupOneMore(entries, n - 1, Adjacent);
    }
  }

  /**
   * Under All the first entry with each text stays, under Adjacent the first of each run, and under
   * Never everything.
   */
  lemma DedupIs(entries: seq<Entry>)
    ensures Deduped(entries, All) == FirstOnes(entries, |entries|)
    ensures Deduped(entries, Adjacent) == RunHeads(entries, |entries|)
    ensures Deduped(entries, Never) == entries
  {
    hide Deduped, FirstOnes, RunHeads;
    DedupAll(entries, |entries|);
    DedupAdjacent(entries, |entries|);
    NeverKeepsAll(entries);
    assert entries[..|entries|] == entries;
  }

  // ----- the file

  /** One record, without its line feed. */
  function LineOf(e: Entry): bytes {
    e.timestamp + [TAB] + e.cwd + [TAB] + SignedDigits(e.status) + [TAB] + e.text
  }

  /** The next tab at or after `from`, or nothing. */
  function TabFrom(line: bytes, from: nat): (at: Option<nat>)
    ensures at.Some? ==> from <= at.value < |line|
  {
    if from > |line| then None
    else
      var at := FindByte(line, TAB, from);
      if at < |line| then Some(at) else None
  }

  /** A line of the file as an entry; a line with fewer than three tabs is all text. */
  function ParseLine(line: bytes): Entry {
    var one := TabFrom(line, 0);
    var two := if one.None? then None else TabFrom(line, one.value + 1);
    var three := if two.None? then None else TabFrom(line, two.value + 1);
    if three.None? then Entry(line, [], [], 0)
    else
      Entry(line[three.value + 1..], line[..one.value], line[one.value + 1..two.value],
            Atoi(line[two.value + 1..three.value]))
  }

  /** The lines `std::getline` delivers: no empty line after a final line feed. */
  function LinesFrom(file: bytes, from: nat): seq<bytes>
    requires from <= |file|
    decreases |file| - from
  {
    if from == |file| then []
    else
      var end := FindByte(file, LF, from);
      [file[from..end]] + if end == |file| then [] else LinesFrom(file, end + 1)
  }

  function ParseAll(lines: seq<bytes>): seq<Entry> {
    seq(|lines|, i requires 0 <= i < |lines| => ParseLine(lines[i]))
  }

  /** What `load` makes of a file. */
  function Loaded(file: bytes, policy: Merge): seq<Entry> {
    Deduped(ParseAll(LinesFrom(file, 0)), policy)
  }

  // ----- one record

  lemma TabAt(line: bytes, from: nat, at: nat)
    requires from <= at < |line| && line[at] == TAB && forall i :: from <= i < at ==> line[i] != TAB
    ensures TabFrom(line, from) == Some(at)
  {
  }

  /** The field up to the next tab holds none. */
  lemma TabCutsField(line: bytes, from: nat, i: nat)
    requires from <= i < |line| && line[i] == TAB
    ensures TabFrom(line, from).Some? && TabFrom(line, from).value <= i
    ensures TAB !in line[from..TabFrom(line, from).value]
  {
  }

  lemma SignedDigitsNoTab(n: int)
    ensures TAB !in SignedDigits(n) && LF !in SignedDigits(n)
  {
    hide Digits;
  }

  /** Four fields and the three tabs between them, by position. */
  lemma FourFields(a: bytes, b: bytes, c: bytes, d: bytes)
    ensures var line := a + [TAB] + b + [TAB] + c + [TAB] + d;
            var i, j, k := |a|, |a| + 1 + |b|, |a| + 1 + |b| + 1 + |c|;
            && |line| == k + 1 + |d|
            && line[..i] == a && line[i] == TAB && line[i + 1..j] == b && line[j] == TAB
            && line[j + 1..k] == c && line[k] == TAB && line[k + 1..] == d
            && (forall x :: 0 <= x < i ==> line[x] == a[x])
            && (forall x :: i < x < j ==> line[x] == b[x - i - 1])
            && (forall x :: j < x < k ==> line[x] == c[x - j - 1])
  {
  }

  /** Whatever stands before, between and behind the first three tabs is the entry. */
  lemma FieldsAreRead(a: bytes, b: bytes, c: bytes, d: bytes)
    requires TAB !in a && TAB !in b && TAB !in c
    ensures ParseLine(a + [TAB] + b + [TAB] + c + [TAB] + d) == Entry(d, a, b, Atoi(c))
  {
    hide Atoi, TabFrom, ParseLine;
    var line := a + [TAB] + b + [TAB] + c + [TAB] + d;
    FourFields(a, b, c, d);
    var i := |a|;
    var j := i + 1 + |b|;
    TabAt(line, 0, i);
    TabAt(line, i + 1, j);
    TabAt(line, j + 1, j + 1 + |c|);
    ParseAtTabs(line, i, j, j + 1 + |c|);
  }

  lemma ParseAtTabs(line: bytes, i: nat, j: nat, k: nat)
    requires TabFrom(line, 0) == Some(i) && TabFrom(line, i + 1) == Some(j) && TabFrom(line, j + 1) == Some(k)
    ensures i < j < k < |line|
    ensures ParseLine(line) == Entry(line[k + 1..], line[..i], line[i + 1..j], Atoi(line[j + 1..k]))
  {
    hide Atoi;
  }

  lemma CleanRecord(e: Entry)
    requires TAB !in e.timestamp && TAB !in e.cwd
    ensures ParseLine(LineOf(e)) == e
  {
    hide SignedDigits, Atoi, ParseLine;
    SignedDigitsNoTab(e.status);
    FieldsAreRead(e.timestamp, e.cwd, SignedDigits(e.status), e.text);
    AtoiPrinted(e.status);
  }

  /** A line with fewer than three tabs is all text. */
  lemma LineIsText(line: bytes)
    requires forall i, j, k :: 0 <= i < j < k < |line| ==> line[i] != TAB || line[j] != TAB || line[k] != TAB
    ensures ParseLine(line) == Entry(line, [], [], 0)
  {
    hide Atoi;
  }

  /** A record is read back as it was written exactly when no tab hides in the timestamp or the directory. */
  lemma RecordRoundTrip(e: Entry)
    ensures ParseLine(LineOf(e)) == e <==> TAB !in e.timestamp && TAB !in e.cwd
  {
    if TAB !in e.timestamp && TAB !in e.cwd {
      CleanRecord(e);
    } else {
      hide SignedDigits, Atoi, TabFrom;
      var line := LineOf(e);
      FourFields(e.timestamp, e.cwd, SignedDigits(e.status), e.text);
      TabCutsField(line, 0, |e.timestamp|);
      var one := TabFrom(line, 0).value;
      if TAB in e.timestamp {
        var x :| 0 <= x < |e.timestamp| && e.timestamp[x] == TAB;
        TabCutsField(line, 0, x);
        assert TAB !in line[..one] by { assert line[..one] == line[0..one]; }
      } else {
        TabAt(line, 0, |e.timestamp|);
        TabCutsField(line, one + 1, one + 1 + |e.cwd|);
      }
    }
  }

  // ----- the whole file

  ghost predicate Clean(e: Entry) {
    && TAB !in e.timestamp && LF !in e.timestamp && TAB !in e.cwd && LF !in e.cwd && LF !in e.text
  }

  /** The file is empty or ends in a line feed, as `append` leaves it. */
  predicate Closed(file: bytes) {
    file == [] || file[|file| - 1] == LF
  }

  lemma NextLine(file: bytes, from: nat, end: nat)
    requires from < |file| && from <= end <= |file|
    requires end < |file| ==> file[end] == LF
    requires forall i :: from <= i < end ==> file[i] != LF
    ensures LinesFrom(file, from) == [file[from..end]] + if end == |file| then [] else LinesFrom(file, end + 1)
  {
    assert FindByte(file, LF, from) == end;
  }

  lemma {:induction false} LinesAppend(file: bytes, line: bytes, from: nat)
    requires Closed(file) && from <= |file| && LF !in line
    ensures LinesFrom(file + line + [LF], from) == LinesFrom(file, from) + [line]
    decreases |file| - from
  {
    hide LinesFrom;
    var longer := file + line + [LF];
    if from == |file| {
      assert longer[from..|longer| - 1] == line;
      NextLine(longer, from, |longer| - 1);
      NoLines(longer);
      NoLines(file);
    } else {
      var end := FindByte(file, LF, from);
      assert file[|file| - 1] == LF;
      NextLine(file, from, end);
      NextLine(longer, from, end);
      assert longer[from..end] == file[from..end];
      LinesAppend(file, line, end + 1);
    }
  }

  lemma NoLines(file: bytes)
    ensures LinesFrom(file, |file|) == []
  {
  }

  lemma NoFeedInLine(e: Entry)
    requires LF !in e.timestamp && LF !in e.cwd && LF !in e.text
    ensures LF !in LineOf(e)
  {
    SignedDigitsNoTab(e.status);
  }

  /** Loading after an append gives what the append left in memory. */
  lemma AppendThenLoad(file: bytes, e: Entry, policy: Merge)
    requires Closed(file) && Clean(e)
    ensures Closed(file + LineOf(e) + [LF])
    ensures Loaded(file + LineOf(e) + [LF], policy) == Deduped(Loaded(file, policy) + [e], policy)
  {
    hide DedupFrom, LinesFrom, ParseLine, LineOf;
    NoFeedInLine(e);
    LinesAppend(file, LineOf(e), 0);
    RecordRoundTrip(e);
    var entries := ParseAll(LinesFrom(file, 0));
    assert ParseAll(LinesFrom(file, 0) + [LineOf(e)]) == entries + [e];
    DedupAgain(entries, e, policy);
  }

  // ----- the class

  class History {
    const policy: Merge
    /** The content of the file at the history's path; None while there is no such file. */
    var file: Option<bytes>
    var entries: seq<Entry>

    /** Memory and file agree: loading now would change nothing. */
    ghost predicate Agrees()
      reads this
    {
      match file
      case None => entries == []
      case Some(content) => Closed(content) && entries == Loaded(content, policy)
    }

    constructor (file: Option<bytes>, policy: Merge)
      ensures this.policy == policy && this.file == file && entries == []
      ensures file == None || file == Some([]) ==> Agrees()
    {
      this.policy := policy;
      this.file := file;
      entries := [];
    }

    /** `load`. */
    method Load() returns (ok: bool)
      modifies this`entries
      ensures ok
      ensures entries == if file.Some? then Loaded(file.value, policy) else []
    {
      hide Deduped;
      entries := [];
      if file.None? {
        return true;
      }
      entries := ReadEntries(file.value);
      entries := Dedup(entries, policy);
      return true;
    }

    /** `append`, with the clock's reading as a parameter. */
    method Append(entry: Entry, now: bytes) returns (ok: bool)
      modifies this
      ensures ok
      ensures entry.text == [] || entry.text[0] == SPACE ==> file == old(file) && entries == old(entries)
      ensures entry.text != [] && entry.text[0] != SPACE ==>
                var stamped := if entry.timestamp == [] then entry.(timestamp := now) else entry;
                && file == Some((if old(file).Some? then old(file).value else []) + LineOf(stamped) + [LF])
                && entries == Deduped(old(entries) + [stamped], policy)
      ensures old(Agrees()) && Clean(Stamped(entry, now)) ==> Agrees()
    {
      hide LineOf, Deduped, Loaded;
      if entry.text == [] || entry.text[0] == SPACE {
        return true;
      }
      var stamped := if entry.timestamp == [] then entry.(timestamp := now) else entry;
      var content := if file.Some? then file.value else [];
      file := Some(content + LineOf(stamped) + [LF]);
      entries := entries + [stamped];
      entries := Dedup(entries, policy);
      if old(Agrees()) && Clean(stamped) {
        LoadNothing(policy);
        AppendThenLoad(content, stamped, policy);
      }
      return true;
    }
  }

  /** The `std::getline` loop of `load`. */
  method ReadEntries(content: bytes) returns (entries: seq<Entry>)
    ensures entries == ParseAll(LinesFrom(content, 0))
  {
    hide ParseLine, LinesFrom;
    entries := [];
    var from := 0;
    ghost var all := LinesFrom(content, 0);
    NoLines(content);
    while from < |content|
      invariant from <= |content|
      invariant |entries| <= |all| && LinesFrom(content, from) == all[|entries|..]
      invariant entries == ParseAll(all[..|entries|])
      decreases |content| - from
    {
      var end := FindByte(content, LF, from);
      NextLine(content, from, end);
      ghost var n := |entries|;
      assert all[n] == content[from..end] && all[n..][1..] == all[n + 1..];
      assert all[..n + 1] == all[..n] + [all[n]];
      entries := entries + [ParseLine(content[from..end])];
      from := if end == |content| then end else end + 1;
    }
    assert all[..|entries|] == all;
  }

  predicate Ignored(e: Entry) {
    e.text == [] || e.text[0] == SPACE
  }

  function Stamped(e: Entry, now: bytes): Entry {
    if e.timestamp == [] then e.(timestamp := now) else e
  }

  lemma LoadNothing(policy: Merge)
    ensures Loaded([], policy) == [] && Closed([])
  {
  }

  // ----- any number of appends

  /** What `load` makes of the file, or of there being none. */
  function LoadedFrom(file: Option<bytes>, policy: Merge): seq<Entry> {
    if file.Some? then Loaded(file.value, policy) else []
  }

  predicate ClosedFile(file: Option<bytes>) {
    file.Some? ==> Closed(file.value)
  }

  /** The file and the memory after a run of appends, each an entry and the clock's reading. */
  function Replay(file: Option<bytes>, entries: seq<Entry>, added: seq<(Entry, bytes)>, policy: Merge)
    : (Option<bytes>, seq<Entry>)
    decreases |added|
  {
    if added == [] then (file, entries)
    else if Ignored(added[0].0) then Replay(file, entries, added[1..], policy)
    else
      var stamped := Stamped(added[0].0, added[0].1);
      var content := if file.Some? then file.value else [];
      Replay(Some(content + LineOf(stamped) + [LF]), Deduped(entries + [stamped], policy), added[1..], policy)
  }

  /** A run of `append`. */
  method AppendAll(history: History, added: seq<(Entry, bytes)>)
    modifies history
    ensures (history.file, history.entries)
         == Replay(old(history.file), old(history.entries), added, history.policy)
  {
    hide LineOf, Deduped, Loaded;
    for i := 0 to |added|
      invariant Replay(history.file, history.entries, added[i..], history.policy)
             == Replay(old(history.file), old(history.entries), added, history.policy)
    {
      assert added[i..][1..] == added[i + 1..];
      var ok := history.Append(added[i].0, added[i].1);
    }
    assert added[|added|..] == [];
  }

  /** From any closed file just loaded, or none, loading after any run of appends rebuilds the memory. */
  lemma {:induction false} ReplayAgrees(file: Option<bytes>, added: seq<(Entry, bytes)>, policy: Merge)
    requires ClosedFile(file)
    requires forall i :: 0 <= i < |added| ==> Ignored(added[i].0) || Clean(Stamped(added[i].0, added[i].1))
    ensures var r := Replay(file, LoadedFrom(file, policy), added, policy);
            ClosedFile(r.0) && LoadedFrom(r.0, policy) == r.1
    decreases |added|
  {
    hide Loaded, Deduped, LineOf, Clean, Closed, Ignored, Stamped;
    if added != [] {
      if Ignored(added[0].0) {
        ReplayAgrees(file, added[1..], policy);
      } else {
        var stamped := Stamped(added[0].0, added[0].1);
        var content := if file.Some? then file.value else [];
        LoadNothing(policy);
        AppendThenLoad(content, stamped, policy);
        ReplayAgrees(Some(content + LineOf(stamped) + [LF]), added[1..], policy);
      }
    }
  }

  // ----- a file that is not closed

  /** A record appended to an unfinished line adds no line. */
  lemma {:induction false} LineJoined(file: bytes, line: bytes, from: nat)
    requires !Closed(file) && from < |file| && LF !in line
    ensures |LinesFrom(file + line + [LF], from)| == |LinesFrom(file, from)|
    decreases |file| - from
  {
    hide LinesFrom;
    var longer, end := file + line + [LF], FindByte(file, LF, from);
    NextLine(file, from, end);
    if end == |file| {
      NextLine(longer, from, |longer| - 1);
      NoLines(longer);
    } else {
      NextLine(longer, from, end);
      LineJoined(file, line, end + 1);
    }
  }

  lemma NeverKeepsAll(entries: seq<Entry>)
    ensures Deduped(entries, Never) == entries
  {
    NothingDropped([], entries);
    assert [] + entries == entries;
  }

  lemma {:induction false} LinesHoldNoFeed(file: bytes, from: nat)
    requires from <= |file|
    ensures forall i :: 0 <= i < |LinesFrom(file, from)| ==> LF !in LinesFrom(file, from)[i]
    decreases |file| - from
  {
    if from < |file| {
      var end := FindByte(file, LF, from);
      assert LF !in file[from..end];
      if end < |file| {
        LinesHoldNoFeed(file, end + 1);
      }
    }
  }

  lemma ParsedHoldsNoFeed(line: bytes)
    requires LF !in line
    ensures var e := ParseLine(line);
            LF !in e.text && LF !in e.timestamp && LF !in e.cwd
  {
    hide TabFrom, Atoi;
  }

  lemma FeedNotRead(file: bytes, e: Entry)
    requires LF in e.timestamp || LF in e.cwd || LF in e.text
    ensures forall i :: 0 <= i < |LinesFrom(file, 0)| ==> ParseAll(LinesFrom(file, 0))[i] != e
  {
    hide ParseLine, LinesFrom;
    LinesHoldNoFeed(file, 0);
    forall i | 0 <= i < |LinesFrom(file, 0)|
      ensures ParseAll(LinesFrom(file, 0))[i] != e
    {
      ParsedHoldsNoFeed(LinesFrom(file, 0)[i]);
    }
  }

  /** A line feed in a record splits it, a tab moves its fields, and an unfinished line swallows it. */
  lemma RecordNotRead(file: bytes, e: Entry)
    requires !(Closed(file) && Clean(e))
    ensures ParseAll(LinesFrom(file + LineOf(e) + [LF], 0)) != ParseAll(LinesFrom(file, 0)) + [e]
  {
    hide LineOf, ParseLine, LinesFrom;
    var longer, before := file + LineOf(e) + [LF], ParseAll(LinesFrom(file, 0));
    assert (before + [e])[|before|] == e;
    if LF in e.timestamp || LF in e.cwd || LF in e.text {
      FeedNotRead(longer, e);
    } else if Closed(file) {
      NoFeedInLine(e);
      LinesAppend(file, LineOf(e), 0);
      RecordRoundTrip(e);
      assert ParseAll(LinesFrom(longer, 0))[|before|] == ParseLine(LineOf(e));
    } else {
      NoFeedInLine(e);
      LineJoined(file, LineOf(e), 0);
    }
  }

  /**
   * Appending a record and loading gives what the append left in memory, under every policy, exactly
   * when the file is closed and the record is clean.
   */
  lemma AppendThenLoadExactly(file: bytes, e: Entry)
    ensures (forall policy :: Loaded(file + LineOf(e) + [LF], policy) == Deduped(Loaded(file, policy) + [e], policy))
       <==> Closed(file) && Clean(e)
  {
    hide LineOf, ParseLine, LinesFrom, Deduped, Clean, ParseAll;
    if Closed(file) && Clean(e) {
      forall policy
        ensures Loaded(file + LineOf(e) + [LF], policy) == Deduped(Loaded(file, policy) + [e], policy)
      {
        AppendThenLoad(file, e, policy);
      }
    } else {
      RecordNotRead(file, e);
      NeverKeepsAll(ParseAll(LinesFrom(file, 0)));
      NeverKeepsAll(ParseAll(LinesFrom(file + LineOf(e) + [LF], 0)));
      NeverKeepsAll(Loaded(file, Never) + [e]);
      assert Loaded(file + LineOf(e) + [LF], Never) != Deduped(Loaded(file, Never) + [e], Never);
    }
  }

  /**
   * A file that holds one unfinished line swallows the next record: the file stays one line, while
   * the memory has two entries unless the policy drops the new one.
   */
  lemma UnclosedFileSwallows(file: bytes, e: Entry, policy: Merge)
    requires file != [] && LF !in file && Clean(e)
    ensures |Loaded(file + LineOf(e) + [LF], policy)| == 1
    ensures |Deduped(Loaded(file, policy) + [e], policy)|
         == if policy != Never && ParseLine(file).text == e.text then 1 else 2
  {
    hide ParseLine, LineOf, Deduped, LinesFrom;
    NoFeedInLine(e);
    OneLine(file + LineOf(e), [LF], policy);
    assert file + LineOf(e) + [LF] == (file + LineOf(e)) + [LF];
    OneLine(file, [], policy);
    assert file + [] == file;
    DedupTwo(ParseLine(file), e, policy);
  }

  lemma OneLine(line: bytes, end: bytes, policy: Merge)
    requires line != [] && LF !in line && (end == [] || end == [LF])
    ensures Loaded(line + end, policy) == [ParseLine(line)]
  {
    hide ParseLine, Deduped, LinesFrom;
    var file := line + end;
    NextLine(file, 0, |line|);
    NoLines(file);
    assert file[0..|line|] == line;
    assert LinesFrom(file, 0) == [line];
    assert ParseAll([line]) == [ParseLine(line)];
    DedupOne(ParseLine(line), policy);
  }

  lemma DedupOne(e: Entry, policy: Merge)
    ensures Deduped([e], policy) == [e]
  {
    assert [e][1..] == [] && [] + [e] == [e];
    assert !Duplicate([], e, policy);
    assert DedupFrom([], [e], policy) == DedupFrom([e], [], policy);
  }

  lemma DedupTwo(a: Entry, b: Entry, policy: Merge)
    ensures |Deduped([a] + [b], policy)| == if policy != Never && a.text == b.text then 1 else 2
  {
    var kept := if Duplicate([a], b, policy) then [a] else [a] + [b];
    assert ([a] + [b])[1..] == [b] && [b][1..] == [] && [] + [a] == [a];
    assert !Duplicate([], a, policy);
    assert [a][0] == a;
    assert Duplicate([a], b, policy) <==> policy != Never && a.text == b.text;
    assert DedupFrom([], [a] + [b], policy) == DedupFrom([a], [b], policy);
    assert DedupFrom([a], [b], policy) == DedupFrom(kept, [], policy) == kept;
  }
}
