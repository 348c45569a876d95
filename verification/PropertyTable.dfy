/** The shipped classification of code points, and what it is assumed to satisfy elsewhere. */
module PropertyTable {
  import opened Bytes
  import Utf8
  import opened Grapheme
  import opened Clusters
  import opened LineIndexes
  import opened Search
  import opened MultiEdit
  import opened TextBuffer
  import opened TextLines
  import opened WrapLaws
  import opened ReflowText

  datatype Range = Range(first: uint32, last: uint32)

  predicate Between(c: uint32, ranges: seq<Range>) {
    exists i :: 0 <= i < |ranges| && ranges[i].first <= c <= ranges[i].last
  }

  const LEADING := [Range(0x1100, 0x115F), Range(0xA960, 0xA97C)]
  const VOWELS := [Range(0x1160, 0x11A7), Range(0xD7B0, 0xD7C6)]
  const TRAILING := [Range(0x11A8, 0x11FF), Range(0xD7CB, 0xD7FB)]

  const PREPENDS := [
    Range(0x0600, 0x0605), Range(0x06DD, 0x06DD), Range(0x070F, 0x070F), Range(0x0890, 0x0891), Range(0x08E2, 0x08E2),
    Range(0x0D4E, 0x0D4E), Range(0x110BD, 0x110BD), Range(0x111C2, 0x111C3), Range(0x1193F, 0x1193F),
    Range(0x11941, 0x11941), Range(0x11A3A, 0x11A3A), Range(0x11A84, 0x11A89), Range(0x11D46, 0x11D46)]

  const SPACING_MARKS := [
    Range(0x0903, 0x0903), Range(0x093B, 0x093B), Range(0x093E, 0x0940), Range(0x0949, 0x094C), Range(0x0982, 0x0983),
    Range(0x09BE, 0x09C0), Range(0x0A3E, 0x0A40), Range(0x0AC9, 0x0AC9), Range(0x0B3E, 0x0B3E), Range(0x0BBE, 0x0BBF),
    Range(0x0C01, 0x0C03), Range(0x0CC0, 0x0CC4), Range(0x0D3E, 0x0D40), Range(0x0DCF, 0x0DD1), Range(0x0F3E, 0x0F3F),
    Range(0x102B, 0x102C), Range(0x17B6, 0x17B6), Range(0x1923, 0x1926), Range(0x1A19, 0x1A1A), Range(0x1B3D, 0x1B41),
    Range(0x1B43, 0x1B44), Range(0xA823, 0xA824), Range(0x11000, 0x11000), Range(0x1112C, 0x1112C)]

  const EXTENDERS := [
    Range(0x200C, 0x200C), Range(0x0300, 0x036F), Range(0x0483, 0x0489), Range(0x0591, 0x05BD), Range(0x05BF, 0x05BF),
    Range(0x05C1, 0x05C2), Range(0x0610, 0x061A), Range(0x064B, 0x065F), Range(0x06D6, 0x06ED), Range(0x0730, 0x074A),
    Range(0x07A6, 0x07B0), Range(0x07EB, 0x07F3), Range(0x0816, 0x082D), Range(0x0859, 0x085B), Range(0x08D3, 0x0902),
    Range(0x093A, 0x093C), Range(0x0941, 0x0948), Range(0x094D, 0x094D), Range(0x0951, 0x0957), Range(0x0962, 0x0963),
    Range(0x1AB0, 0x1ACE), Range(0x1DC0, 0x1DFF), Range(0x20D0, 0x20F0), Range(0xFE00, 0xFE0F), Range(0xFE20, 0xFE2F),
    Range(0xE0100, 0xE01EF)]

  const PICTOGRAPHS := [Range(0x1F000, 0x1FAFF), Range(0x2600, 0x27BF), Range(0x2300, 0x23FF)]

  const CONTROLS := [Range(0, 0x1F), Range(0x7F, 0x9F), Range(0xD800, 0xDFFF)]

  /** `detail::property`. */
  function PropertyOf(c: uint32): Property {
    if c == CR then Cr
    else if c == LF then Lf
    else if c == 0x200D then Zwj
    else if 0x1F1E6 <= c <= 0x1F1FF then RegionalIndicator
    else if Between(c, LEADING) then L
    else if Between(c, VOWELS) then V
    else if Between(c, TRAILING) then T
    else if 0xAC00 <= c <= 0xD7A3 then if (c - 0xAC00) % 28 == 0 then Lv else Lvt
    else if Between(c, PREPENDS) then Prepend
    else if Between(c, SPACING_MARKS) then SpacingMark
    else if Between(c, EXTENDERS) then Extend
    else if Between(c, PICTOGRAPHS) then ExtendedPictographic
    else if Between(c, CONTROLS) then Control
    else Other
  }

  /** No range holds a code point below `low`, or U+FFFD. */
  predicate Beside(ranges: seq<Range>, low: uint32) {
    forall i :: 0 <= i < |ranges| ==>
      low <= ranges[i].first && (ranges[i].last < Utf8.REPLACEMENT || Utf8.REPLACEMENT < ranges[i].first)
  }

  lemma NotBetween(c: uint32, ranges: seq<Range>, low: uint32)
    requires Beside(ranges, low) && (c < low || c == Utf8.REPLACEMENT)
    ensures !Between(c, ranges)
  {
  }

  lemma HangulBeside()
    ensures Beside(LEADING, 0x600) && Beside(VOWELS, 0x600) && Beside(TRAILING, 0x600)
  {
  }

  lemma PrependsBeside()
    ensures Beside(PREPENDS, 0x600)
  {
  }

  lemma MarksBeside()
    ensures Beside(SPACING_MARKS, 0x600)
  {
  }

  lemma ExtendersBeside()
    ensures Beside(EXTENDERS, 0x300)
  {
  }

  lemma PictographsBeside()
    ensures Beside(PICTOGRAPHS, 0x600)
  {
  }

  /** The classes asked for before the extenders. */
  lemma EarlierRanges(c: uint32)
    requires c < 0x600 || c == Utf8.REPLACEMENT
    ensures !Between(c, LEADING) && !Between(c, VOWELS) && !Between(c, TRAILING)
    ensures !Between(c, PREPENDS) && !Between(c, SPACING_MARKS)
  {
    hide Between, Beside;
    HangulBeside();
    PrependsBeside();
    MarksBeside();
    NotBetween(c, LEADING, 0x600);
    NotBetween(c, VOWELS, 0x600);
    NotBetween(c, TRAILING, 0x600);
    NotBetween(c, PREPENDS, 0x600);
    NotBetween(c, SPACING_MARKS, 0x600);
  }

  lemma ControlRanges(c: uint32)
    ensures Between(c, CONTROLS) <==> c < 0x20 || 0x7F <= c < 0xA0 || 0xD800 <= c < 0xE000
  {
    assert c < 0x20 ==> CONTROLS[0].first <= c <= CONTROLS[0].last;
    assert 0x7F <= c < 0xA0 ==> CONTROLS[1].first <= c <= CONTROLS[1].last;
    assert 0xD800 <= c < 0xE000 ==> CONTROLS[2].first <= c <= CONTROLS[2].last;
  }

  lemma ShippedProperty(c: uint32)
    requires c < 0x80 || c == Utf8.REPLACEMENT
    ensures PropertyOf(c)
         == if c == CR then Cr else if c == LF then Lf else if c < 0x20 || c == 0x7F then Control else Other
  {
    hide Between, Beside;
    EarlierRanges(c);
    ExtendersBeside();
    PictographsBeside();
    NotBetween(c, EXTENDERS, 0x300);
    NotBetween(c, PICTOGRAPHS, 0x600);
    ControlRanges(c);
  }

  /** What the results about the text engine ask of a table holds of the shipped one. */
  lemma ShippedTable()
    ensures AsciiTable(PropertyOf) && PropertyOf(Utf8.REPLACEMENT) == Other
  {
    hide PropertyOf;
    ShippedProperty(Utf8.REPLACEMENT);
    forall c: uint32 | c < 0x80
      ensures PropertyOf(c)
           == if c == CR then Cr else if c == LF then Lf else if c < 0x20 || c == 0x7F then Control else Other
    {
      ShippedProperty(c);
    }
  }

  /** With the shipped table, replacing from the right end is one splice exactly where bytes never join. */
  lemma ShippedSplices(alphabet: set<byte>)
    ensures (forall text, query, confirm: Match -> bool, value ::
               Over(alphabet, text) && Over(alphabet, value) ==> Splices(PropertyOf, text, query, confirm, value))
            <==> NeverJoin(alphabet)
  {
    hide PropertyOf, AsciiTable, Over, NeverJoin, Splices;
    ShippedTable();
    SplicesWhereBytesNeverJoin(PropertyOf, alphabet);
  }

  /** A space followed by a combining acute accent, after another letter: reflowing at width one loses the accent. */
  lemma AccentIsLost(breakWords: bool)
    ensures var text: bytes := [0x61, SPACE, 0xCC, 0x81];
            Ink(Reflowed(PropertyOf, text, 1, breakWords)) != Ink(text)
  {
    hide Reflowed, Ink, LineStarts, LineText, OnChain, NextBreak, NextCodepoint, AsciiTable;
    ShippedTable();
    var text: bytes := [0x61, SPACE, 0xCC, 0x81];
    OneLineText(text);
    SecondBoundary(text);
    SpaceBreak(PropertyOf, text, 1);
    Accent(text);
    ReflowKeepsText(PropertyOf, text, breakWords);
    assert !SpacesAlone(PropertyOf, LineText(text, 0));
  }

  lemma Accent(text: bytes)
    requires text == [0x61, SPACE, 0xCC, 0x81]
    ensures Extends(PropertyOf(NextCodepoint(text, 2).value))
  {
    hide Utf8.DecodeOneAt, Utf8.EncodeOne, NextCodepoint, PropertyOf;
    NextCodepointAgrees(text, 2);
    EncodedAccent();
    assert text[2..] == [0xCC, 0x81];
    Utf8.DecodeOneComplete(text, 2, 0x301);
    AccentExtends();
  }

  lemma EncodedAccent()
    ensures Utf8.EncodeOne(0x301) == [0xCC, 0x81]
  {
    hide Or, And;
    Pow2Values();
    OrLow(3, 0x0C, 6);
    LowMask6(0x301);
    OrLow(2, 1, 6);
  }

  lemma AccentExtends()
    ensures PropertyOf(0x301) == Extend
  {
    EarlierRanges(0x301);
    assert EXTENDERS[1].first <= 0x301 <= EXTENDERS[1].last;
  }

  lemma SecondBoundary(text: bytes)
    requires |text| > 1 && text[0] == 0x61 && text[1] == SPACE
    ensures OnChain(PropertyOf, text, 0, 1)
  {
    hide PropertyOf, NextBreak;
    ShippedTable();
    AsciiBreak(PropertyOf, text, 0);
  }

  lemma OneLineText(text: bytes)
    requires LF !in text
    ensures |LineStarts(text)| == 1 && LineText(text, 0) == text
  {
    hide LineStarts, LineText;
    LinesOfText(text);
    assert SplitFrom(text, 0) == [text[0..]];
    assert text[0..] == text;
  }
}
