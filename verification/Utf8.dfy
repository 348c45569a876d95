/** The UTF-8 codec of TTyTk-Encoding (Unicode Standard, section 3.9, D92). */
module Utf8 {
  import opened Bytes

  const REPLACEMENT: uint32 := 0xFFFD

  /** A decoded value and how many bytes it took. */
  datatype Decoded = Decoded(value: uint32, consumed: nat)

  /** What a lead byte announces; length 0 marks a byte that cannot lead. */
  datatype Lead = Lead(length: nat, payload: nat, minimum: nat)

  predicate IsScalar(c: nat) {
    c <= 0x10FFFF && !(0xD800 <= c <= 0xDFFF)
  }

  predicate AllScalars(cs: seq<uint32>) {
    forall c <- cs :: IsScalar(c)
  }

  predicate Continuation(b: byte) {
    And(b, 0xC0) == 0x80
  }

  function LeadOf(first: byte): Lead {
    if 0xC2 <= first <= 0xDF then Lead(2, And(first, 0x1F), 0x80)
    else if 0xE0 <= first <= 0xEF then Lead(3, And(first, 0x0F), 0x800)
    else if 0xF0 <= first <= 0xF4 then Lead(4, And(first, 0x07), 0x10000)
    else Lead(0, 0, 0)
  }

  /** Shifts the continuation bytes `index..length` into `codepoint`; fails at the first other byte. */
  function Accumulate(input: bytes, offset: nat, index: nat, length: nat, codepoint: nat): Option<nat>
    requires index <= length && offset + length <= |input|
    decreases length - index
  {
    if index == length then Some(codepoint)
    else
      var b := input[offset + index];
      if !Continuation(b) then None
      else Accumulate(input, offset, index + 1, length, Or(codepoint * 0x40, And(b, 0x3F)))
  }

  /** What decoding one code point at `offset` yields. */
  function DecodeOneAt(input: bytes, offset: nat): (d: Decoded)
    requires offset < |input|
    ensures 1 <= d.consumed <= 4 && offset + d.consumed <= |input|
  {
    var first := input[offset];
    if first <= 0x7F then Decoded(first, 1)
    else
      var lead := LeadOf(first);
      if lead.length == 0 || |input| - offset < lead.length then Decoded(REPLACEMENT, 1)
      else
        match Accumulate(input, offset, 1, lead.length, lead.payload)
        case None => Decoded(REPLACEMENT, 1)
        case Some(c) => if c < lead.minimum || !IsScalar(c) then Decoded(REPLACEMENT, 1)
                        else Decoded(c, lead.length)
  }

  /** `utf8::detail::decode_one`. */
  method DecodeOne(input: bytes, offset: nat) returns (value: uint32, consumed: nat)
    requires offset < |input|
    ensures Decoded(value, consumed) == DecodeOneAt(input, offset)
  {
    var first := input[offset];
    consumed := 1;
    if first <= 0x7F {
      return first, consumed;
    }
    var lead := LeadOf(first);
    if lead.length == 0 || |input| - offset < lead.length {
      return REPLACEMENT, consumed;
    }
    var codepoint: nat, index := lead.payload, 1;
    while index < lead.length
      invariant 1 <= index <= lead.length
      invariant Accumulate(input, offset, 1, lead.length, lead.payload)
             == Accumulate(input, offset, index, lead.length, codepoint)
    {
      var b := input[offset + index];
      if !Continuation(b) {
        return REPLACEMENT, consumed;
      }
      codepoint := Or(codepoint * 0x40, And(b, 0x3F));
      index := index + 1;
    }
    if codepoint < lead.minimum || !IsScalar(codepoint) {
      return REPLACEMENT, consumed;
    }
    return codepoint, lead.length;
  }

  /** The value `encode` writes: out-of-range values and surrogates become U+FFFD. */
  function Scrub(c: uint32): uint32 {
    if IsScalar(c) then c else REPLACEMENT
  }

  /** `utf8::encode(char32_t)`. */
  function EncodeOne(c: uint32): (out: bytes)
    ensures 1 <= |out| <= 4
  {
    var scalar := Scrub(c);
    if scalar <= 0x7F then [scalar]
    else if scalar <= 0x7FF then
      [Or(0xC0, scalar / 0x40), Or(0x80, And(scalar, 0x3F))]
    else if scalar <= 0xFFFF then
      [Or(0xE0, scalar / 0x1000), Or(0x80, And(scalar / 0x40, 0x3F)), Or(0x80, And(scalar, 0x3F))]
    else
      [Or(0xF0, scalar / 0x40000), Or(0x80, And(scalar / 0x1000, 0x3F)),
       Or(0x80, And(scalar / 0x40, 0x3F)), Or(0x80, And(scalar, 0x3F))]
  }

  function Encode(cs: seq<uint32>): bytes {
    if cs == [] then [] else EncodeOne(cs[0]) + Encode(cs[1..])
  }

  /** `utf8::encode` of a list. */
  method EncodeAll(cs: seq<uint32>) returns (output: bytes)
    ensures output == Encode(cs)
  {
    hide EncodeOne;
    output := [];
    for i := 0 to |cs|
      invariant output + Encode(cs[i..]) == Encode(cs)
    {
      assert cs[i..][1..] == cs[i + 1..];
      output := output + EncodeOne(cs[i]);
    }
  }

  function DecodeFrom(input: bytes, offset: nat): seq<uint32>
    requires offset <= |input|
    decreases |input| - offset
  {
    if offset == |input| then []
    else
      var d := DecodeOneAt(input, offset);
      [d.value] + DecodeFrom(input, offset + d.consumed)
  }

  function Decode(input: bytes): seq<uint32> {
    DecodeFrom(input, 0)
  }

  /** `utf8::decode`. */
  method DecodeAll(input: bytes) returns (output: seq<uint32>)
    ensures output == Decode(input)
  {
    hide DecodeOneAt;
    output := [];
    var offset := 0;
    while offset < |input|
      invariant 0 <= offset <= |input|
      invariant output + DecodeFrom(input, offset) == Decode(input)
    {
      var value, consumed := DecodeOne(input, offset);
      output := output + [value];
      offset := offset + consumed;
    }
  }

  predicate ValidFrom(input: bytes, offset: nat)
    requires offset <= |input|
    decreases |input| - offset
  {
    if offset == |input| then true
    else
      var d := DecodeOneAt(input, offset);
      if d.value == REPLACEMENT && input[offset] != 0xEF then false
      else if d.consumed == 1 && input[offset] >= 0x80 then false
      else ValidFrom(input, offset + d.consumed)
  }

  predicate Validate(input: bytes) {
    ValidFrom(input, 0)
  }

  /** `utf8::validate`. */
  method ValidateAll(input: bytes) returns (valid: bool)
    ensures valid == Validate(input)
  {
    hide DecodeOneAt;
    var offset := 0;
    while offset < |input|
      invariant 0 <= offset <= |input|
      invariant ValidFrom(input, offset) == Validate(input)
    {
      var value, consumed := DecodeOne(input, offset);
      if value == REPLACEMENT && input[offset] != 0xEF {
        return false;
      }
      if consumed == 1 && input[offset] >= 0x80 {
        return false;
      }
      offset := offset + consumed;
    }
    return true;
  }

  // ----- one code point

  /** A base-64 digit is taken off a number, or put on, in one way. */
  lemma Digit(c: nat, q: nat, r: nat)
    requires r < 0x40
    ensures c == q * 0x40 + r <==> c / 0x40 == q && c % 0x40 == r
  {
  }

  lemma Shifts(c: nat)
    ensures c / 0x1000 == c / 0x40 / 0x40
    ensures c / 0x40000 == c / 0x40 / 0x40 / 0x40
  {
  }

  lemma ThreeDigits(c: nat, p: nat, y: nat, z: nat)
    requires y < 0x40 && z < 0x40
    ensures c == p * 0x1000 + 0x40 * y + z <==> c / 0x1000 == p && c / 0x40 % 0x40 == y && c % 0x40 == z
  {
    Shifts(c);
    Digit(c, p * 0x40 + y, z);
    Digit(c / 0x40, p, y);
  }

  lemma FourDigits(c: nat, p: nat, x: nat, y: nat, z: nat)
    requires x < 0x40 && y < 0x40 && z < 0x40
    ensures c == p * 0x40000 + 0x1000 * x + 0x40 * y + z
       <==> c / 0x40000 == p && c / 0x1000 % 0x40 == x && c / 0x40 % 0x40 == y && c % 0x40 == z
  {
    Shifts(c);
    Digit(c, p * 0x1000 + x * 0x40 + y, z);
    ThreeDigits(c / 0x40, p, x, y);
    Shifts(c / 0x40);
  }

  /** The bit operations of `encode`, as arithmetic on base-64 digits. */
  lemma EncodeTwo(c: uint32, p: nat, z: nat)
    requires 0x80 <= c <= 0x7FF && z < 0x40 && c == p * 0x40 + z
    ensures p < 0x20 && EncodeOne(c) == [0xC0 + p, 0x80 + z]
  {
    hide And, Or;
    Digit(c, p, z);
    LowMask6(c);
    Markers(p);
    Markers(z);
  }

  lemma EncodeThree(c: uint32, p: nat, y: nat, z: nat)
    requires 0x800 <= c <= 0xFFFF && IsScalar(c) && y < 0x40 && z < 0x40 && c == p * 0x1000 + 0x40 * y + z
    ensures p < 0x10 && EncodeOne(c) == [0xE0 + p, 0x80 + y, 0x80 + z]
  {
    hide And, Or;
    ThreeDigits(c, p, y, z);
    LowMask6(c);
    LowMask6(c / 0x40);
    Markers(p);
    Markers(y);
    Markers(z);
  }

  lemma EncodeFour(c: uint32, p: nat, x: nat, y: nat, z: nat)
    requires 0x10000 <= c && IsScalar(c) && x < 0x40 && y < 0x40 && z < 0x40
    requires c == p * 0x40000 + 0x1000 * x + 0x40 * y + z
    ensures p < 5 && EncodeOne(c) == [0xF0 + p, 0x80 + x, 0x80 + y, 0x80 + z]
  {
    hide And, Or;
    FourDigits(c, p, x, y, z);
    LowMask6(c);
    LowMask6(c / 0x40);
    LowMask6(c / 0x1000);
    Markers(p);
    Markers(x);
    Markers(y);
    Markers(z);
  }

  predicate Continues(b: byte) {
    0x80 <= b <= 0xBF
  }

  function Payload(b: byte): (p: nat)
    requires Continues(b)
    ensures p < 0x40
  {
    b - 0x80
  }

  /** One turn of the decoding loop, as arithmetic. */
  lemma AccumulateStep(input: bytes, offset: nat, index: nat, length: nat, codepoint: nat)
    requires index < length && offset + length <= |input|
    ensures var b := input[offset + index];
            Accumulate(input, offset, index, length, codepoint)
            == if Continues(b)
               then Accumulate(input, offset, index + 1, length, codepoint * 0x40 + Payload(b))
               else None
  {
    hide And, Or;
    var b := input[offset + index];
    ContinuationMask(b);
    if Continues(b) {
      var payload := And(b, 0x3F);
      LowMask6(b);
      Digit(b, 2, Payload(b));
      AppendSixBits(codepoint, payload);
    }
  }

  /** The decoding loop for each length, as arithmetic. */
  lemma AccumulateTwo(input: bytes, offset: nat, p: nat)
    requires offset + 2 <= |input|
    ensures Accumulate(input, offset, 1, 2, p)
         == if Continues(input[offset + 1]) then Some(p * 0x40 + Payload(input[offset + 1])) else None
  {
    hide And, Or, Continuation;
    AccumulateStep(input, offset, 1, 2, p);
  }

  lemma AccumulateThree(input: bytes, offset: nat, p: nat)
    requires offset + 3 <= |input|
    ensures Accumulate(input, offset, 1, 3, p)
         == if Continues(input[offset + 1]) && Continues(input[offset + 2])
            then Some(p * 0x1000 + 0x40 * Payload(input[offset + 1]) + Payload(input[offset + 2])) else None
  {
    hide And, Or, Continuation;
    AccumulateStep(input, offset, 1, 3, p);
    if Continues(input[offset + 1]) {
      AccumulateStep(input, offset, 2, 3, p * 0x40 + Payload(input[offset + 1]));
    }
  }

  lemma AccumulateFour(input: bytes, offset: nat, p: nat)
    requires offset + 4 <= |input|
    ensures Accumulate(input, offset, 1, 4, p)
         == if Continues(input[offset + 1]) && Continues(input[offset + 2]) && Continues(input[offset + 3])
            then Some(p * 0x40000 + 0x1000 * Payload(input[offset + 1])
                      + 0x40 * Payload(input[offset + 2]) + Payload(input[offset + 3])) else None
  {
    hide And, Or, Continuation;
    AccumulateStep(input, offset, 1, 4, p);
    if Continues(input[offset + 1]) {
      var c1 := p * 0x40 + Payload(input[offset + 1]);
      AccumulateStep(input, offset, 2, 4, c1);
      if Continues(input[offset + 2]) {
        AccumulateStep(input, offset, 3, 4, c1 * 0x40 + Payload(input[offset + 2]));
      }
    }
  }

  /** A scalar's encoding decodes to that scalar, whatever surrounds it. */
  lemma DecodeOneComplete(input: bytes, offset: nat, c: uint32)
    requires IsScalar(c) && offset < |input| && EncodeOne(c) <= input[offset..]
    ensures DecodeOneAt(input, offset) == Decoded(c, |EncodeOne(c)|)
  {
    hide DecodeOneAt, And, Or;
    var e := EncodeOne(c);
    assert forall k :: 0 <= k < |e| ==> input[offset + k] == input[offset..][k] == e[k];
    if c <= 0x7F {
      CompleteOne(input, offset, c);
    } else if 0x80 <= c <= 0x7FF {
      CompleteTwo(input, offset, c, c / 0x40, c % 0x40);
    } else if 0x800 <= c <= 0xFFFF {
      ThreeDigits(c, c / 0x1000, c / 0x40 % 0x40, c % 0x40);
      CompleteThree(input, offset, c, c / 0x1000, c / 0x40 % 0x40, c % 0x40);
    } else if c >= 0x10000 {
      FourDigits(c, c / 0x40000, c / 0x1000 % 0x40, c / 0x40 % 0x40, c % 0x40);
      CompleteFour(input, offset, c, c / 0x40000, c / 0x1000 % 0x40, c / 0x40 % 0x40, c % 0x40);
    }
  }

  predicate StartsAt(input: bytes, offset: nat, e: bytes)
    requires offset < |input|
  {
    offset + |e| <= |input| && forall k :: 0 <= k < |e| ==> input[offset + k] == e[k]
  }

  lemma CompleteOne(input: bytes, offset: nat, c: uint32)
    requires c <= 0x7F && offset < |input| && StartsAt(input, offset, EncodeOne(c))
    ensures DecodeOneAt(input, offset) == Decoded(c, 1)
  {
    assert input[offset + 0] == EncodeOne(c)[0];
  }

  lemma CompleteTwo(input: bytes, offset: nat, c: uint32, p: nat, z: nat)
    requires 0x80 <= c <= 0x7FF && z < 0x40 && c == p * 0x40 + z
    requires offset < |input| && StartsAt(input, offset, EncodeOne(c))
    ensures DecodeOneAt(input, offset) == Decoded(c, 2)
  {
    hide EncodeOne, Accumulate, LeadOf;
    var e := EncodeOne(c);
    EncodeTwo(c, p, z);
    assert e[0] == input[offset + 0] && e[1] == input[offset + 1];
    LeadTwo(input[offset]);
    AccumulateTwo(input, offset, p);
  }

  lemma CompleteThree(input: bytes, offset: nat, c: uint32, p: nat, y: nat, z: nat)
    requires 0x800 <= c <= 0xFFFF && IsScalar(c) && y < 0x40 && z < 0x40 && c == p * 0x1000 + 0x40 * y + z
    requires offset < |input| && StartsAt(input, offset, EncodeOne(c))
    ensures DecodeOneAt(input, offset) == Decoded(c, 3)
  {
    hide EncodeOne, Accumulate, LeadOf;
    var e := EncodeOne(c);
    EncodeThree(c, p, y, z);
    assert e[0] == input[offset + 0] && e[1] == input[offset + 1] && e[2] == input[offset + 2];
    LeadThree(input[offset]);
    AccumulateThree(input, offset, p);
  }

  lemma CompleteFour(input: bytes, offset: nat, c: uint32, p: nat, x: nat, y: nat, z: nat)
    requires 0x10000 <= c && IsScalar(c) && x < 0x40 && y < 0x40 && z < 0x40
    requires c == p * 0x40000 + 0x1000 * x + 0x40 * y + z
    requires offset < |input| && StartsAt(input, offset, EncodeOne(c))
    ensures DecodeOneAt(input, offset) == Decoded(c, 4)
  {
    hide EncodeOne, Accumulate, LeadOf;
    var e := EncodeOne(c);
    EncodeFour(c, p, x, y, z);
    assert e[0] == input[offset + 0] && e[1] == input[offset + 1];
    assert e[2] == input[offset + 2] && e[3] == input[offset + 3];
    LeadFour(input[offset]);
    AccumulateFour(input, offset, p);
  }

  /** Anything but a one-byte U+FFFD is the decoding of an encoded scalar. */
  lemma DecodeOneSound(input: bytes, offset: nat)
    requires offset < |input|
    ensures var d := DecodeOneAt(input, offset);
            || (d == Decoded(REPLACEMENT, 1) && input[offset] >= 0x80)
            || (IsScalar(d.value) && input[offset..offset + d.consumed] == EncodeOne(d.value))
  {
    hide EncodeOne, Accumulate, And;
    var first := input[offset];
    var d := DecodeOneAt(input, offset);
    OneByteEncoding(first);
    if first > 0x7F && d != Decoded(REPLACEMENT, 1) {
      DecodedTwo(input, offset);
      DecodedThree(input, offset);
      DecodedFour(input, offset);
    }
  }

  lemma DecodedTwo(input: bytes, offset: nat)
    requires offset < |input|
    ensures var d := DecodeOneAt(input, offset);
            d.consumed == 2 ==> IsScalar(d.value) && input[offset..offset + 2] == EncodeOne(d.value)
  {
    hide EncodeOne, Accumulate, And;
    var first := input[offset];
    if 0xC2 <= first <= 0xDF && offset + 2 <= |input| {
      LeadTwo(first);
      AccumulateTwo(input, offset, first - 0xC0);
      if Continues(input[offset + 1]) {
        var d, z := DecodeOneAt(input, offset), Payload(input[offset + 1]);
        EncodeTwo(d.value, first - 0xC0, z);
      }
    }
  }

  lemma DecodedThree(input: bytes, offset: nat)
    requires offset < |input|
    ensures var d := DecodeOneAt(input, offset);
            d.consumed == 3 ==> IsScalar(d.value) && input[offset..offset + 3] == EncodeOne(d.value)
  {
    hide EncodeOne, Accumulate, And;
    var first := input[offset];
    if 0xE0 <= first <= 0xEF && offset + 3 <= |input| {
      LeadThree(first);
      AccumulateThree(input, offset, first - 0xE0);
      var d := DecodeOneAt(input, offset);
      if d.consumed == 3 {
        EncodeThree(d.value, first - 0xE0, Payload(input[offset + 1]), Payload(input[offset + 2]));
      }
    }
  }

  lemma DecodedFour(input: bytes, offset: nat)
    requires offset < |input|
    ensures var d := DecodeOneAt(input, offset);
            d.consumed == 4 ==> IsScalar(d.value) && input[offset..offset + 4] == EncodeOne(d.value)
  {
    hide EncodeOne, Accumulate, And;
    var first := input[offset];
    if 0xF0 <= first <= 0xF4 && offset + 4 <= |input| {
      LeadFour(first);
      AccumulateFour(input, offset, first - 0xF0);
      var d := DecodeOneAt(input, offset);
      if d.consumed == 4 {
        var x, y, z := Payload(input[offset + 1]), Payload(input[offset + 2]), Payload(input[offset + 3]);
        EncodeFour(d.value, first - 0xF0, x, y, z);
      }
    }
  }

  lemma LeadTwo(first: byte)
    requires 0xC2 <= first <= 0xDF
    ensures LeadOf(first) == Lead(2, first - 0xC0, 0x80)
  {
    hide And;
    LowMask5(first);
  }

  lemma LeadThree(first: byte)
    requires 0xE0 <= first <= 0xEF
    ensures LeadOf(first) == Lead(3, first - 0xE0, 0x800)
  {
    hide And;
    LowMask4(first);
  }

  lemma LeadFour(first: byte)
    requires 0xF0 <= first <= 0xF4
    ensures LeadOf(first) == Lead(4, first - 0xF0, 0x10000)
  {
    hide And;
    LowMask3(first);
  }

  /** `decode_one` reports an error exactly where no scalar's encoding starts. */
  lemma DecodeOneErrors(input: bytes, offset: nat)
    requires offset < |input|
    ensures DecodeOneAt(input, offset) == Decoded(REPLACEMENT, 1)
       <==> !exists c: uint32 :: IsScalar(c) && EncodeOne(c) <= input[offset..]
  {
    hide DecodeOneAt, EncodeOne;
    var d := DecodeOneAt(input, offset);
    DecodeOneSound(input, offset);
    ReplacementEncoding();
    if d == Decoded(REPLACEMENT, 1) {
      forall c: uint32 | IsScalar(c) && EncodeOne(c) <= input[offset..]
        ensures false
      {
        DecodeOneComplete(input, offset, c);
      }
    } else {
      assert EncodeOne(d.value) <= input[offset..];
    }
  }

  lemma ReplacementEncoding()
    ensures EncodeOne(REPLACEMENT) == [0xEF, 0xBF, 0xBD]
  {
    EncodeThree(REPLACEMENT, 0xF, 0x3F, 0x3D);
  }

  lemma OneByteEncoding(c: uint32)
    ensures |EncodeOne(c)| == 1 ==> EncodeOne(c)[0] < 0x80
    ensures c <= 0x7F ==> EncodeOne(c) == [c]
  {
  }

  /** A longer encoding starts with a byte that can lead one, and goes on with one that cannot. */
  lemma EncodingLeads(c: uint32)
    requires IsScalar(c) && c >= 0x80
    ensures |EncodeOne(c)| > 1 && 0xC2 <= EncodeOne(c)[0] <= 0xF4 && 0x80 <= EncodeOne(c)[1] <= 0xBF
  {
    hide *;
    var p, y, z := c / 0x40, c / 0x40 % 0x40, c % 0x40;
    if c <= 0x7FF {
      EncodeTwo(c, p, z);
    } else if c <= 0xFFFF {
      ThreeDigits(c, c / 0x1000, y, z);
      EncodeThree(c, c / 0x1000, y, z);
    } else {
      FourDigits(c, c / 0x40000, c / 0x1000 % 0x40, y, z);
      EncodeFour(c, c / 0x40000, c / 0x1000 % 0x40, y, z);
    }
  }

  /** Every byte of a longer encoding is outside ASCII. */
  lemma EncodeOneHigh(c: uint32)
    ensures |EncodeOne(c)| > 1 ==> forall i :: 0 <= i < |EncodeOne(c)| ==> EncodeOne(c)[i] >= 0x80
  {
    hide And, Or;
  }

  // ----- whole strings

  /** Decoding looks only at the bytes from the offset on. */
  lemma DecodeOneSuffix(front: bytes, rest: bytes, offset: nat)
    requires offset < |rest|
    ensures DecodeOneAt(front + rest, |front| + offset) == DecodeOneAt(rest, offset)
  {
    hide Accumulate, LeadOf;
    var first := rest[offset];
    if first > 0x7F {
      var lead := LeadOf(first);
      if lead.length != 0 && offset + lead.length <= |rest| {
        AccumulateSuffix(front, rest, offset, 1, lead.length, lead.payload);
      }
    }
  }

  lemma {:induction false} AccumulateSuffix(front: bytes, rest: bytes, offset: nat, index: nat, length: nat,
                                            codepoint: nat)
    requires index <= length && offset + length <= |rest|
    ensures Accumulate(front + rest, |front| + offset, index, length, codepoint)
         == Accumulate(rest, offset, index, length, codepoint)
    decreases length - index
  {
    hide And, Or, Continuation;
    if index < length {
      var b := rest[offset + index];
      AccumulateSuffix(front, rest, offset, index + 1, length, Or(codepoint * 0x40, And(b, 0x3F)));
    }
  }

  /** Cutting the text at or after the end of a code point does not change that code point. */
  lemma DecodeOneTruncated(input: bytes, offset: nat, cut: nat)
    requires offset < |input| && offset + DecodeOneAt(input, offset).consumed <= cut <= |input|
    ensures DecodeOneAt(input[..cut], offset) == DecodeOneAt(input, offset)
  {
    hide EncodeOne, DecodeOneAt;
    var d, t := DecodeOneAt(input, offset), DecodeOneAt(input[..cut], offset);
    DecodeOneSound(input, offset);
    DecodeOneSound(input[..cut], offset);
    if IsScalar(d.value) && input[offset..offset + d.consumed] == EncodeOne(d.value) {
      assert EncodeOne(d.value) == input[..cut][offset..][..d.consumed];
      DecodeOneComplete(input[..cut], offset, d.value);
    } else if t != d {
      assert EncodeOne(t.value) == input[offset..][..t.consumed];
      DecodeOneComplete(input, offset, t.value);
    }
  }

  lemma {:induction false} DecodeFromSuffix(front: bytes, rest: bytes, offset: nat)
    requires offset <= |rest|
    ensures DecodeFrom(front + rest, |front| + offset) == DecodeFrom(rest, offset)
    ensures ValidFrom(front + rest, |front| + offset) == ValidFrom(rest, offset)
    decreases |rest| - offset
  {
    hide DecodeOneAt;
    if offset < |rest| {
      DecodeOneSuffix(front, rest, offset);
      DecodeFromSuffix(front, rest, offset + DecodeOneAt(rest, offset).consumed);
    }
  }

  lemma DecodePrepend(front: bytes, rest: bytes)
    ensures DecodeFrom(front + rest, |front|) == Decode(rest)
    ensures ValidFrom(front + rest, |front|) == Validate(rest)
  {
    DecodeFromSuffix(front, rest, 0);
  }

  function ScrubAll(cs: seq<uint32>): seq<uint32> {
    seq(|cs|, i requires 0 <= i < |cs| => Scrub(cs[i]))
  }

  lemma EncodeOneScrubs(c: uint32)
    ensures IsScalar(Scrub(c)) && EncodeOne(c) == EncodeOne(Scrub(c))
  {
  }

  /** Encoding then decoding gives back every scalar, and U+FFFD for every other value. */
  lemma {:induction false} DecodeEncode(cs: seq<uint32>)
    ensures Decode(Encode(cs)) == ScrubAll(cs)
    ensures AllScalars(cs) ==> Decode(Encode(cs)) == cs
  {
    hide EncodeOne, DecodeOneAt;
    if cs != [] {
      var e, rest, s := EncodeOne(cs[0]), Encode(cs[1..]), Scrub(cs[0]);
      EncodeOneScrubs(cs[0]);
      assert (e + rest)[0..] == e + rest;
      DecodeOneComplete(e + rest, 0, s);
      DecodePrepend(e, rest);
      DecodeEncode(cs[1..]);
      assert ScrubAll(cs) == [s] + ScrubAll(cs[1..]);
      assert AllScalars(cs) ==> cs == [cs[0]] + cs[1..];
    }
  }

  /** Every encoder output is valid. */
  lemma {:induction false} EncodeIsValid(cs: seq<uint32>)
    ensures Validate(Encode(cs))
  {
    hide EncodeOne, DecodeOneAt;
    if cs != [] {
      var e, rest, s := EncodeOne(cs[0]), Encode(cs[1..]), Scrub(cs[0]);
      EncodeOneScrubs(cs[0]);
      ReplacementEncoding();
      OneByteEncoding(s);
      assert (e + rest)[0..] == e + rest;
      DecodeOneComplete(e + rest, 0, s);
      DecodePrepend(e, rest);
      EncodeIsValid(cs[1..]);
    }
  }

  /** Re-encoding never loses bytes, and reproduces the input exactly when it is valid. */
  lemma {:induction false} EncodeDecodeFrom(input: bytes, offset: nat)
    requires offset <= |input|
    ensures AllScalars(DecodeFrom(input, offset))
    ensures ValidFrom(input, offset) ==> Encode(DecodeFrom(input, offset)) == input[offset..]
    ensures !ValidFrom(input, offset) ==> |Encode(DecodeFrom(input, offset))| > |input| - offset
    ensures |Encode(DecodeFrom(input, offset))| >= |input| - offset
    decreases |input| - offset
  {
    hide EncodeOne, DecodeOneAt;
    if offset < |input| {
      var d := DecodeOneAt(input, offset);
      var next := offset + d.consumed;
      DecodeOneSound(input, offset);
      ReplacementEncoding();
      OneByteEncoding(d.value);
      EncodeDecodeFrom(input, next);
      assert input[offset..] == input[offset..next] + input[next..];
      assert DecodeFrom(input, offset)[1..] == DecodeFrom(input, next);
    }
  }

  /** `encode(decode(s)) == s` exactly for the strings `validate` accepts. */
  lemma EncodeDecode(input: bytes)
    ensures Encode(Decode(input)) == input <==> Validate(input)
  {
    hide EncodeOne, DecodeFrom, ValidFrom;
    EncodeDecodeFrom(input, 0);
  }

  /** `validate` accepts exactly the encodings of lists of scalar values. */
  lemma ValidateIsWellFormed(input: bytes)
    ensures Validate(input) <==> exists cs: seq<uint32> :: AllScalars(cs) && Encode(cs) == input
  {
    hide EncodeOne, DecodeFrom, ValidFrom;
    EncodeDecodeFrom(input, 0);
    if Validate(input) {
      assert AllScalars(Decode(input)) && Encode(Decode(input)) == input;
    }
    forall cs: seq<uint32> | AllScalars(cs) && Encode(cs) == input
      ensures Validate(input)
    {
      EncodeIsValid(cs);
    }
  }
}
