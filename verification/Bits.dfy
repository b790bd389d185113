/** Exclusive or on bytes and words, bit by bit. */
module Bits {
  import opened Bytes

  const WORD := 0x1_0000_0000

  type word = x: int | 0 <= x < WORD

  function XorBit(a: nat, b: nat): nat {
    if a % 2 == b % 2 then 0 else 1
  }

  function XorBits(a: nat, b: nat, bits: nat): (r: nat) {
    if bits == 0 then 0 else XorBit(a, b) + 2 * XorBits(a / 2, b / 2, bits - 1)
  }

  function Pow2(n: nat): (r: nat)
    ensures r > 0
  {
    if n == 0 then 1 else 2 * Pow2(n - 1)
  }

  lemma {:induction false} XorRange(a: nat, b: nat, bits: nat)
    ensures XorBits(a, b, bits) < Pow2(bits)
  {
    if bits > 0 {
      XorRange(a / 2, b / 2, bits - 1);
    }
  }

  lemma HalfOf(low: nat, high: nat)
    requires low < 2
    ensures (low + 2 * high) / 2 == high && (low + 2 * high) % 2 == low
  {
  }

  lemma {:induction false} XorBitsTwice(a: nat, b: nat, bits: nat)
    requires a < Pow2(bits)
    ensures XorBits(XorBits(a, b, bits), b, bits) == a
  {
    if bits > 0 {
      var x := XorBits(a, b, bits);
      XorBitsTwice(a / 2, b / 2, bits - 1);
      HalfOf(XorBit(a, b), XorBits(a / 2, b / 2, bits - 1));
      assert x / 2 == XorBits(a / 2, b / 2, bits - 1) && x % 2 == XorBit(a, b);
    }
  }

  lemma Pow2Of8()
    ensures Pow2(8) == 256
  {
    assert Pow2(4) == 16;
  }

  function Xor(a: byte, b: byte): byte {
    Pow2Of8();
    XorRange(a, b, 8);
    XorBits(a, b, 8)
  }

  lemma XorTwice(a: byte, b: byte)
    ensures Xor(Xor(a, b), b) == a
  {
    Pow2Of8();
    XorBitsTwice(a, b, 8);
  }

  lemma Pow2Of32()
    ensures Pow2(32) == WORD
  {
    Pow2Of8();
    assert Pow2(12) == 16 * Pow2(8);
    assert Pow2(16) == 16 * Pow2(12);
    assert Pow2(20) == 16 * Pow2(16);
    assert Pow2(24) == 16 * Pow2(20);
    assert Pow2(28) == 16 * Pow2(24);
    assert Pow2(32) == 16 * Pow2(28);
  }

  function Xor32(a: word, b: word): word {
    Pow2Of32();
    XorRange(a, b, 32);
    XorBits(a, b, 32)
  }

  lemma {:induction false} BitOfXorBits(a: nat, b: nat, bits: nat, i: nat)
    requires i < bits
    ensures XorBits(a, b, bits) / Pow2(i) % 2 == 1 <==> a / Pow2(i) % 2 != b / Pow2(i) % 2
  {
    HalfOf(XorBit(a, b), XorBits(a / 2, b / 2, bits - 1));
    if i > 0 {
      BitOfXorBits(a / 2, b / 2, bits - 1, i - 1);
      DivideTwice(a, 2, Pow2(i - 1));
      DivideTwice(b, 2, Pow2(i - 1));
      DivideTwice(XorBits(a, b, bits), 2, Pow2(i - 1));
    }
  }

  /** A bit of the result is set exactly when the two differ in it. */
  lemma XorIs(a: byte, b: byte, i: nat)
    requires i < 8
    ensures Xor(a, b) / Pow2(i) % 2 == 1 <==> a / Pow2(i) % 2 != b / Pow2(i) % 2
  {
    BitOfXorBits(a, b, 8, i);
  }

  lemma Xor32Is(a: word, b: word, i: nat)
    requires i < 32
    ensures Xor32(a, b) / Pow2(i) % 2 == 1 <==> a / Pow2(i) % 2 != b / Pow2(i) % 2
  {
    BitOfXorBits(a, b, 32, i);
  }

  lemma Xor32Twice(a: word, b: word)
    ensures Xor32(Xor32(a, b), b) == a
  {
    Pow2Of32();
    XorBitsTwice(a, b, 32);
  }
}
