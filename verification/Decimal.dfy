/** Decimal numbers as `std::to_string` writes and `std::from_chars` reads them. */
module Decimal {
  import opened Bytes

  const ZERO: byte := 0x30
  const MINUS: byte := 0x2D

  predicate IsDigit(b: byte) {
    0x30 <= b <= 0x39
  }

  predicate AllDigits(text: bytes) {
    forall i :: 0 <= i < |text| ==> IsDigit(text[i])
  }

  /** `std::to_string` of an unsigned number. */
  function Digits(n: nat): (text: bytes)
    ensures text != [] && AllDigits(text)
  {
    if n < 10 then [ZERO + n] else Digits(n / 10) + [ZERO + n % 10]
  }

  function ValueOf(text: bytes): nat
    requires AllDigits(text)
  {
    if text == [] then 0 else ValueOf(text[..|text| - 1]) * 10 + (text[|text| - 1] - ZERO)
  }

  /** A `std::from_chars` into an `unsigned` that must use the whole text and fit 32 bits. */
  function ParseUnsigned(text: bytes): Option<uint32> {
    if text != [] && AllDigits(text) && ValueOf(text) < 0x1_0000_0000 then Some(ValueOf(text)) else None
  }

  lemma {:induction false} ValueOfDigits(n: nat)
    ensures ValueOf(Digits(n)) == n
  {
    if n >= 10 {
      ValueOfDigits(n / 10);
      assert Digits(n)[..|Digits(n)| - 1] == Digits(n / 10);
    }
  }

  /** Printing and parsing a 32-bit number gives it back. */
  lemma ParsePrinted(n: uint32)
    ensures ParseUnsigned(Digits(n)) == Some(n)
  {
    ValueOfDigits(n);
  }

  function Zeros(k: nat): (text: bytes)
    ensures |text| == k && forall i :: 0 <= i < k ==> text[i] == ZERO
  {
    seq(k, _ => ZERO)
  }

  lemma {:induction false} ValueOfZeros(k: nat)
    ensures ValueOf(Zeros(k)) == 0
  {
    if k > 0 {
      assert Zeros(k)[..k - 1] == Zeros(k - 1);
      ValueOfZeros(k - 1);
    }
  }

  lemma {:induction false} ValueOfPadded(k: nat, n: nat)
    ensures ValueOf(Zeros(k) + Digits(n)) == n
  {
    var text := Zeros(k) + Digits(n);
    if n < 10 {
      ValueOfZeros(k);
      assert text[..|text| - 1] == Zeros(k);
    } else {
      ValueOfPadded(k, n / 10);
      assert text[..|text| - 1] == Zeros(k) + Digits(n / 10);
    }
  }

  lemma {:induction false} PaddedDigits(text: bytes) returns (k: nat)
    requires text != [] && AllDigits(text)
    ensures text == Zeros(k) + Digits(ValueOf(text))
    decreases |text|
  {
    hide ValueOf;
    var front, d := text[..|text| - 1], text[|text| - 1] - ZERO;
    ValueStep(text);
    assert text == front + [ZERO + d] && IsDigit(text[|text| - 1]);
    k := 0;
    if front != [] {
      k := PaddedDigits(front);
      if ValueOf(front) == 0 {
        assert front == Zeros(k + 1);
        k := k + 1;
      }
    } else {
      assert text == Zeros(0) + [ZERO + d];
    }
  }

  lemma ValueStep(text: bytes)
    requires text != [] && AllDigits(text)
    ensures ValueOf(text) == ValueOf(text[..|text| - 1]) * 10 + (text[|text| - 1] - ZERO)
    ensures ValueOf([]) == 0
  {
  }

  /** A text is read as n exactly when it is n as printed, perhaps behind zeros. */
  lemma ParseExactly(text: bytes, n: uint32)
    ensures ParseUnsigned(text) == Some(n) <==> exists k: nat :: text == Zeros(k) + Digits(n)
  {
    hide Digits, ValueOf;
    if ParseUnsigned(text) == Some(n) {
      var k := PaddedDigits(text);
    }
    if k: nat :| text == Zeros(k) + Digits(n) {
      ValueOfPadded(k, n);
    }
  }

  /** An `int` as an `ostream` writes it. */
  function SignedDigits(n: int): (text: bytes)
    ensures text != []
  {
    if n < 0 then [MINUS] + Digits(-n) else Digits(n)
  }

  predicate IsSpace(b: byte) {
    b == SPACE || 0x09 <= b <= 0x0D
  }

  function DigitPrefix(text: bytes): (n: nat)
    ensures n <= |text| && AllDigits(text[..n])
    ensures n < |text| ==> !IsDigit(text[n])
  {
    if text == [] || !IsDigit(text[0]) then 0
    else
      var n := DigitPrefix(text[1..]);
      assert text[..n + 1] == [text[0]] + text[1..][..n];
      n + 1
  }

  /** `std::atoi`: spaces, a sign, then as many digits as there are. */
  function Atoi(text: bytes): int
    decreases |text|
  {
    if text != [] && IsSpace(text[0]) then Atoi(text[1..])
    else if text != [] && text[0] == MINUS then 0 - ValueOf(text[1..][..DigitPrefix(text[1..])]) as int
    else if text != [] && text[0] == 0x2B then ValueOf(text[1..][..DigitPrefix(text[1..])])
    else ValueOf(text[..DigitPrefix(text)])
  }

  lemma AllDigitPrefix(text: bytes)
    requires AllDigits(text)
    ensures DigitPrefix(text) == |text|
  {
  }

  lemma AtoiOfDigits(text: bytes)
    requires text != [] && AllDigits(text)
    ensures Atoi(text) == ValueOf(text)
    ensures Atoi([MINUS] + text) == 0 - ValueOf(text)
  {
    hide ValueOf, DigitPrefix;
    AllDigitPrefix(text);
    assert text[..|text|] == text && IsDigit(text[0]);
    assert ([MINUS] + text)[1..] == text;
  }

  lemma AtoiPrinted(n: int)
    ensures Atoi(SignedDigits(n)) == n
  {
    hide Atoi, Digits, ValueOf;
    var size := if n < 0 then -n else n;
    AtoiOfDigits(Digits(size));
    ValueOfDigits(size);
  }
}
