/**
 * The grapheme-cluster segmenter of TTyTk-Grampheme (section 3.1.1 of UAX #29).
 *
 * The table that classifies code points is a parameter: every result holds for any table,
 * or for any table that classifies ASCII as the shipped one does (`AsciiTable`).
 */
module Grapheme {
  import opened Bytes
  import Utf8

  datatype Property =
    | Other | Cr | Lf | Control | Extend | Zwj | RegionalIndicator | Prepend | SpacingMark
    | L | V | T | Lv | Lvt | ExtendedPictographic

  type Table = uint32 -> Property

  datatype Codepoint = Codepoint(value: uint32, end: nat)

  /** The length a lead byte announces. */
  function LeadLength(first: byte): nat {
    if 0xC2 <= first <= 0xDF then 2
    else if 0xE0 <= first <= 0xEF then 3
    else if 0xF0 <= first <= 0xF4 then 4
    else 1
  }

  /** `detail::next_codepoint`: guesses the length from the lead byte, then validates that slice. */
  function NextCodepoint(text: bytes, start: nat): (c: Codepoint)
    requires start < |text|
    ensures start < c.end <= |text|
  {
    var length := LeadLength(text[start]);
    if start + length <= |text| && Utf8.Validate(text[start..start + length])
    then
      var decoded := Utf8.Decode(text[start..start + length]);
      assert decoded != [];
      Codepoint(decoded[0], start + length)
    else Codepoint(Utf8.REPLACEMENT, start + 1)
  }

  /** `detail::no_break`: rules GB3 to GB13. */
  predicate NoBreak(previous: Property, current: Property, zwjAfterPictographic: bool, regionalBefore: nat) {
    if previous == Cr && current == Lf then true                                          // GB3
    else if previous in {Cr, Lf, Control} || current in {Cr, Lf, Control} then false      // GB4, GB5
    else if previous == L && current in {L, V, Lv, Lvt} then true                         // GB6
    else if previous in {Lv, V} && current in {V, T} then true                            // GB7
    else if previous in {Lvt, T} && current == T then true                                // GB8
    else if current in {Extend, Zwj} then true                                            // GB9
    else if current == SpacingMark then true                                              // GB9a
    else if previous == Prepend then true                                                 // GB9b
    else if zwjAfterPictographic && current == ExtendedPictographic then true             // GB11
    else previous == RegionalIndicator && current == RegionalIndicator && regionalBefore % 2 == 1  // GB12, GB13
  }

  /** The loop variables of `next_break`. */
  datatype Scan = Scan(previous: Property, regional: nat, zwjAfterPictographic: bool, pictographic: bool)

  function StartScan(p: Property): Scan {
    Scan(p, if p == RegionalIndicator then 1 else 0, false, p == ExtendedPictographic)
  }

  function Advance(scan: Scan, current: Property): Scan {
    Scan(current,
         if current == RegionalIndicator then scan.regional + 1
         else if current != Extend then 0 else scan.regional,
         current == Zwj && scan.pictographic,
         if current == ExtendedPictographic then true
         else if current != Extend && current != Zwj then false else scan.pictographic)
  }

  function BreakFrom(tab: Table, text: bytes, offset: nat, scan: Scan): (end: nat)
    requires offset <= |text|
    ensures offset <= end <= |text|
    decreases |text| - offset
  {
    if offset == |text| then |text|
    else
      var c := NextCodepoint(text, offset);
      var p := tab(c.value);
      if !NoBreak(scan.previous, p, scan.zwjAfterPictographic, scan.regional) then offset
      else BreakFrom(tab, text, c.end, Advance(scan, p))
  }

  /** The end of the cluster that starts at `start`. */
  function NextBreak(tab: Table, text: bytes, start: nat): (end: nat)
    ensures start < |text| ==> start < end <= |text|
    ensures start >= |text| ==> end == |text|
  {
    if start >= |text| then |text|
    else
      var c := NextCodepoint(text, start);
      BreakFrom(tab, text, c.end, StartScan(tab(c.value)))
  }

  /** `next_break`. */
  method FindNextBreak(tab: Table, text: bytes, start: nat) returns (end: nat)
    ensures end == NextBreak(tab, text, start)
  {
    hide NextCodepoint, NoBreak;
    if start >= |text| {
      return |text|;
    }
    var first := NextCodepoint(text, start);
    var previousProperty := tab(first.value);
    var offset := first.end;
    var regionalCount := if previousProperty == RegionalIndicator then 1 else 0;
    var pictographicBeforeZwj, zwjAfterPictographic := false, false;
    var pictographicSequence := previousProperty == ExtendedPictographic;
    while offset < |text|
      invariant offset <= |text| && regionalCount >= 0
      invariant BreakFrom(tab, text, offset,
                          Scan(previousProperty, regionalCount, zwjAfterPictographic, pictographicSequence))
             == NextBreak(tab, text, start)
    {
      var current := NextCodepoint(text, offset);
      var currentProperty := tab(current.value);
      if !NoBreak(previousProperty, currentProperty, zwjAfterPictographic, regionalCount) {
        return offset;
      }
      if currentProperty == RegionalIndicator {
        regionalCount := regionalCount + 1;
      } else if currentProperty != Extend {
        regionalCount := 0;
      }
      pictographicBeforeZwj := pictographicSequence;
      zwjAfterPictographic := currentProperty == Zwj && pictographicBeforeZwj;
      if currentProperty == ExtendedPictographic {
        pictographicSequence := true;
      } else if currentProperty != Extend && currentProperty != Zwj {
        pictographicSequence := false;
      }
      previousProperty := currentProperty;
      offset := current.end;
    }
    return |text|;
  }

  function ClustersFrom(tab: Table, text: bytes, start: nat): seq<bytes>
    requires start <= |text|
    decreases |text| - start
  {
    if start == |text| then []
    else
      var end := NextBreak(tab, text, start);
      [text[start..end]] + ClustersFrom(tab, text, end)
  }

  /** `segment`. */
  method Segment(tab: Table, text: bytes) returns (result: seq<bytes>)
    ensures result == ClustersFrom(tab, text, 0)
  {
    result := [];
    var start := 0;
    while start < |text|
      invariant start <= |text|
      invariant result + ClustersFrom(tab, text, start) == ClustersFrom(tab, text, 0)
    {
      var end := FindNextBreak(tab, text, start);
      result := result + [text[start..end]];
      start := end;
    }
  }

  function CountFrom(tab: Table, text: bytes, start: nat): (n: nat)
    requires start <= |text|
    ensures n == |ClustersFrom(tab, text, start)|
    decreases |text| - start
  {
    if start == |text| then 0 else 1 + CountFrom(tab, text, NextBreak(tab, text, start))
  }

  /** `count`. */
  method Count(tab: Table, text: bytes) returns (result: nat)
    ensures result == CountFrom(tab, text, 0)
  {
    result := 0;
    var start := 0;
    while start < |text|
      invariant start <= |text|
      invariant result + CountFrom(tab, text, start) == CountFrom(tab, text, 0)
    {
      result := result + 1;
      start := FindNextBreak(tab, text, start);
    }
  }

  // ----- code points

  /** Decoding a code point needs no more bytes than its lead announces. */
  lemma DecodeOneSlice(text: bytes, start: nat)
    requires start < |text|
    ensures var n := LeadLength(text[start]);
            start + n <= |text| ==> Utf8.DecodeOneAt(text[start..start + n], 0) == Utf8.DecodeOneAt(text, start)
  {
    hide Utf8.DecodeOneAt, Utf8.EncodeOne;
    var n := LeadLength(text[start]);
    if start + n <= |text| {
      var slice := text[start..start + n];
      var d, t := Utf8.DecodeOneAt(text, start), Utf8.DecodeOneAt(slice, 0);
      DecodeOneLength(text, start);
      Utf8.DecodeOneSound(text, start);
      Utf8.DecodeOneSound(slice, 0);
      if Utf8.IsScalar(d.value) && text[start..start + d.consumed] == Utf8.EncodeOne(d.value) {
        assert slice[0..][..d.consumed] == text[start..start + d.consumed];
        Utf8.DecodeOneComplete(slice, 0, d.value);
      } else if Utf8.IsScalar(t.value) && slice[0..t.consumed] == Utf8.EncodeOne(t.value) {
        assert text[start..][..t.consumed] == slice[0..t.consumed];
        Utf8.DecodeOneComplete(text, start, t.value);
      }
    }
  }

  /** A code point takes either one byte or all its lead announces. */
  lemma DecodeOneLength(text: bytes, start: nat)
    requires start < |text|
    ensures var d, n := Utf8.DecodeOneAt(text, start), LeadLength(text[start]);
            || d.consumed == n
            || (d.consumed == 1 && text[start] >= 0x80 && d.value == Utf8.REPLACEMENT)
    ensures text[start] >= 0x80 && LeadLength(text[start]) == 1
            ==> Utf8.DecodeOneAt(text, start) == Utf8.Decoded(Utf8.REPLACEMENT, 1)
    ensures start + LeadLength(text[start]) > |text|
            ==> Utf8.DecodeOneAt(text, start) == Utf8.Decoded(Utf8.REPLACEMENT, 1)
  {
    hide Utf8.Accumulate, And;
  }

  /** The segmenter's own decoder agrees with the codec at every offset of every byte string. */
  lemma NextCodepointAgrees(text: bytes, start: nat)
    requires start < |text|
    ensures var d := Utf8.DecodeOneAt(text, start);
            NextCodepoint(text, start) == Codepoint(d.value, start + d.consumed)
  {
    hide Utf8.DecodeOneAt, Utf8.EncodeOne;
    var n := LeadLength(text[start]);
    DecodeOneLength(text, start);
    DecodeOneSlice(text, start);
    if start + n <= |text| {
      var slice := text[start..start + n];
      var d := Utf8.DecodeOneAt(text, start);
      Utf8.DecodeOneSound(text, start);
      Utf8.ReplacementEncoding();
      Utf8.OneByteEncoding(d.value);
      assert Utf8.Decode(slice)[0] == d.value;
      assert Utf8.Validate(slice) <==>
             !(d.value == Utf8.REPLACEMENT && slice[0] != 0xEF) && !(d.consumed == 1 && slice[0] >= 0x80)
             && Utf8.ValidFrom(slice, d.consumed);
    }
  }
}
