/** Bytes, byte strings and the bit operations of C++ unsigned integers. */
module Bytes {

  /** One `unsigned char`. */
  type byte = b: int | 0 <= b < 0x100

  /** A `std::string` or `std::string_view`: any bytes at all. */
  type bytes = seq<byte>

  /** One `char32_t` or `unsigned`: any 32-bit value. */
  type uint32 = c: int | 0 <= c < 0x1_0000_0000

  /** `std::optional`. */
  datatype Option<+T> = None | Some(value: T)

  const BEL: byte := 0x07
  const TAB: byte := 0x09
  const LF: byte := 0x0A
  const CR: byte := 0x0D
  const ESC: byte := 0x1B
  const SPACE: byte := 0x20
  const BACKSLASH: byte := 0x5C
  const SEMICOLON: byte := 0x3B
  const LEFT_BRACKET: byte := 0x5B
  const RIGHT_BRACKET: byte := 0x5D
  const LETTER_P: byte := 0x50
  const UNDERSCORE: byte := 0x5F

  function Min(a: nat, b: nat): nat {
    if a < b then a else b
  }

  /** The pieces, one after another. */
  function Flatten<T>(pieces: seq<seq<T>>): seq<T> {
    if pieces == [] then [] else pieces[0] + Flatten(pieces[1..])
  }

  /** `std::isalnum` in the "C" locale. */
  predicate IsAlnum(b: byte) {
    0x30 <= b <= 0x39 || 0x41 <= b <= 0x5A || 0x61 <= b <= 0x7A
  }

  /** `std::string_view::find(byte, from)`, with the length for "not found". */
  function FindByte(text: bytes, b: byte, from: nat): (at: nat)
    requires from <= |text|
    ensures from <= at <= |text|
    ensures at < |text| ==> text[at] == b
    ensures forall i :: from <= i < at ==> text[i] != b
    decreases |text| - from
  {
    if from == |text| || text[from] == b then from else FindByte(text, b, from + 1)
  }

  /** The bitwise `a & b`. */
  function And(a: nat, b: nat): (r: nat)
    ensures r <= b
  {
    if a == 0 || b == 0 then 0
    else 2 * And(a / 2, b / 2) + (if a % 2 == 1 && b % 2 == 1 then 1 else 0)
  }

  /** The bitwise `a | b`. */
  function Or(a: nat, b: nat): (r: nat)
    ensures a <= r <= a + b && b <= r
  {
    if a == 0 then b
    else if b == 0 then a
    else 2 * Or(a / 2, b / 2) + (if a % 2 == 1 || b % 2 == 1 then 1 else 0)
  }

  function Pow2(k: nat): (p: nat)
    ensures p > 0
  {
    if k == 0 then 1 else 2 * Pow2(k - 1)
  }

  lemma {:induction false} Pow2Values()
    ensures Pow2(2) == 4 && Pow2(3) == 8 && Pow2(4) == 0x10 && Pow2(5) == 0x20 && Pow2(6) == 0x40
  {
    assert Pow2(2) == 2 * Pow2(1);
    assert Pow2(4) == 2 * Pow2(3) == 4 * Pow2(2);
    assert Pow2(6) == 2 * Pow2(5) == 4 * Pow2(4);
  }

  lemma {:induction false} Pow2Add(j: nat, k: nat)
    ensures Pow2(j + k) == Pow2(j) * Pow2(k)
    decreases j
  {
    if j > 0 {
      Pow2Add(j - 1, k);
      assert Pow2(j + k) == 2 * (Pow2(j - 1) * Pow2(k)) == Pow2(j) * Pow2(k);
    }
  }

  lemma Pow2Of32()
    ensures Pow2(32) == 0x1_0000_0000
  {
    Pow2Values();
    Pow2Add(4, 4);
    Pow2Add(8, 8);
    Pow2Add(16, 16);
  }

  lemma DoubleMod(x: nat, m: nat)
    requires m > 0
    ensures x % (2 * m) == 2 * ((x / 2) % m) + x % 2
  {
    var q, r := (x / 2) / m, (x / 2) % m;
    assert x / 2 == q * m + r;
    assert x == q * (2 * m) + (2 * r + x % 2);
    UniqueMod(x, q, 2 * r + x % 2, 2 * m);
  }

  lemma UniqueMod(x: nat, q: nat, r: nat, m: nat)
    requires m > 0 && r < m && x == q * m + r
    ensures x / m == q && x % m == r
  {
    var d := x / m - q;
    assert x == (x / m) * m + x % m;
    assert d * m == r - x % m;
    NonzeroMultiple(d, m);
  }

  lemma NonzeroMultiple(d: int, m: int)
    requires m > 0
    ensures d == 0 || d * m >= m || d * m <= -m
  {
    if d > 0 {
      assert (d - 1) * m >= 0;
    } else if d < 0 {
      assert (-d - 1) * m >= 0;
    }
  }

  /** Masking with k low ones is the remainder by 2^k. */
  lemma {:induction false} AndLowMask(x: nat, k: nat)
    ensures And(x, Pow2(k) - 1) == x % Pow2(k)
    decreases k
  {
    hide And;
    if k == 0 {
      var zero := Pow2(k) - 1;
      assert zero == 0;
    } else {
      var m := Pow2(k - 1);
      OddMask(x, m - 1);
      AndLowMask(x / 2, k - 1);
      DoubleMod(x, m);
    }
  }

  /** The lowest bit of the other operand is kept under an odd mask. */
  lemma OddMask(x: nat, mask: nat)
    ensures And(x, 2 * mask + 1) == 2 * And(x / 2, mask) + x % 2
  {
    assert (2 * mask + 1) / 2 == mask && (2 * mask + 1) % 2 == 1;
  }

  /** The lowest bit of the other operand is lost under an even mask. */
  lemma DoubleMask(x: nat, mask: nat)
    ensures And(x, 2 * mask) == 2 * And(x / 2, mask)
  {
    assert (2 * mask) / 2 == mask && (2 * mask) % 2 == 0;
  }

  /** Or-ing a low part under a multiple of 2^k adds it. */
  lemma {:induction false} OrLow(hi: nat, lo: nat, k: nat)
    requires lo < Pow2(k)
    ensures Or(hi * Pow2(k), lo) == hi * Pow2(k) + lo
    decreases k
  {
    hide Or;
    if k == 0 {
      assert hi * Pow2(0) == hi;
      OrZero(hi);
    } else {
      var p := Pow2(k - 1);
      OrEven(hi * p, lo);
      OrLow(hi, lo / 2, k - 1);
      assert hi * Pow2(k) == 2 * (hi * p);
    }
  }

  lemma OrZero(a: nat)
    ensures Or(a, 0) == a
  {
  }

  lemma OrEven(a: nat, b: nat)
    ensures Or(2 * a, b) == 2 * Or(a, b / 2) + b % 2
  {
    assert (2 * a) / 2 == a && (2 * a) % 2 == 0;
  }

  /** `x & 0x3F`, `x & 0x1F`, `x & 0x0F`, `x & 0x07` and `x & 3` are remainders. */
  lemma LowMask6(x: nat)
    ensures And(x, 0x3F) == x % 0x40
  {
    hide And;
    Pow2Values();
    AndLowMask(x, 6);
  }

  lemma LowMask5(x: nat)
    ensures And(x, 0x1F) == x % 0x20
  {
    hide And;
    Pow2Values();
    AndLowMask(x, 5);
  }

  lemma LowMask4(x: nat)
    ensures And(x, 0x0F) == x % 0x10
  {
    hide And;
    Pow2Values();
    AndLowMask(x, 4);
  }

  lemma LowMask3(x: nat)
    ensures And(x, 7) == x % 8
  {
    hide And;
    Pow2Values();
    AndLowMask(x, 3);
  }

  lemma LowMask2(x: nat)
    ensures And(x, 3) == x % 4
  {
    hide And;
    Pow2Values();
    AndLowMask(x, 2);
  }

  lemma EightfoldMask(x: nat, mask: nat)
    ensures And(x, 8 * mask) == 8 * And(x / 8, mask)
  {
    hide And;
    DoubleMask(x, 4 * mask);
    DoubleMask(x / 2, 2 * mask);
    DoubleMask(x / 2 / 2, mask);
    assert x / 2 / 2 / 2 == x / 8;
  }

  /** `(b & 0xC0) == 0x80` recognises the bytes 0x80 to 0xBF. */
  lemma ContinuationMask(b: byte)
    ensures And(b, 0xC0) == 0x80 <==> 0x80 <= b <= 0xBF
  {
    hide And;
    EightfoldMask(b, 0x18);
    EightfoldMask(b / 8, 3);
    var high := b / 8 / 8;
    LowMask2(high);
    assert And(b, 0xC0) == 0x40 * (high % 4);
  }

  /** The UTF-8 markers never overlap the payload bits below them. */
  lemma Markers(x: nat)
    ensures x < 0x20 ==> Or(0xC0, x) == 0xC0 + x
    ensures x < 0x10 ==> Or(0xE0, x) == 0xE0 + x
    ensures x < 8 ==> Or(0xF0, x) == 0xF0 + x
    ensures x < 0x40 ==> Or(0x80, x) == 0x80 + x
  {
    hide Or;
    Pow2Values();
    if x < 0x20 { OrLow(6, x, 5); }
    if x < 0x10 { OrLow(14, x, 4); }
    if x < 8 { OrLow(30, x, 3); }
    if x < 0x40 { OrLow(2, x, 6); }
  }

  /** `(hi << 6) | lo` appends six bits. */
  lemma AppendSixBits(hi: nat, lo: nat)
    requires lo < 0x40
    ensures Or(hi * 0x40, lo) == hi * 0x40 + lo
  {
    hide Or;
    Pow2Values();
    OrLow(hi, lo, 6);
  }
}
