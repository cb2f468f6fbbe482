/** Powers of two and the bit operations of the C code, as recursive functions on naturals. */
module Bits {

  const WORD: nat := 0x1_0000_0000

  /** An unsigned 32-bit word. Every assignment to one is proved to be in range. */
  type uint32 = x: nat | x < WORD

  function Pow2(k: nat): (r: nat)
    ensures r >= 1
  {
    if k == 0 then 1 else 2 * Pow2(k - 1)
  }

  ghost predicate IsPow2(x: nat) {
    exists k: nat :: x == Pow2(k)
  }

  function And(a: nat, b: nat): nat {
    if a == 0 || b == 0 then 0
    else 2 * And(a / 2, b / 2) + (if a % 2 == 1 && b % 2 == 1 then 1 else 0)
  }

  function Or(a: nat, b: nat): nat {
    if a == 0 && b == 0 then 0
    else 2 * Or(a / 2, b / 2) + (if a % 2 == 1 || b % 2 == 1 then 1 else 0)
  }

  function Xor(a: nat, b: nat): nat {
    if a == 0 && b == 0 then 0
    else 2 * Xor(a / 2, b / 2) + (if a % 2 != b % 2 then 1 else 0)
  }

  function Shr(v: nat, w: nat): nat {
    if w == 0 then v else Shr(v / 2, w - 1)
  }

  function Shl(v: nat, w: nat): nat {
    if w == 0 then v else 2 * Shl(v, w - 1)
  }

  /** A left shift in a 32-bit word: the bits shifted out are lost. */
  function Shl32(v: nat, w: nat): uint32 {
    Shl(v, w) % WORD
  }

  ghost predicate Bit(v: nat, j: nat) {
    if j == 0 then v % 2 == 1 else Bit(v / 2, j - 1)
  }

  // ----- powers of two

  lemma {:induction false} Pow2Add(a: nat, b: nat)
    ensures Pow2(a + b) == Pow2(a) * Pow2(b)
  {
    if a == 0 {
    } else {
      Pow2Add(a - 1, b);
      assert 2 * (Pow2(a - 1) * Pow2(b)) == (2 * Pow2(a - 1)) * Pow2(b);
    }
  }

  lemma {:induction false} Pow2Mono(a: nat, b: nat)
    requires a <= b
    ensures Pow2(a) <= Pow2(b)
    ensures a < b ==> 2 * Pow2(a) <= Pow2(b)
  {
    if a < b { Pow2Mono(a, b - 1); }
  }

  /** The exponent of a power of two is unique and ordered like the power. */
  lemma Pow2Order(a: nat, b: nat)
    ensures Pow2(a) < Pow2(b) <==> a < b
    ensures Pow2(a) == Pow2(b) <==> a == b
  {
    if a <= b { Pow2Mono(a, b); } else { Pow2Mono(b, a); }
  }

  lemma Pow2Word()
    ensures Pow2(31) == 0x8000_0000 && Pow2(32) == WORD
  {
    assert Pow2(8) == 256;
    Pow2Add(8, 8);
    Pow2Add(16, 8);
    Pow2Add(24, 7);
    assert Pow2(7) == 128;
    assert Pow2(32) == 2 * Pow2(31);
  }

  lemma {:induction false} ShlIsProduct(v: nat, w: nat)
    ensures Shl(v, w) == v * Pow2(w)
  {
    if w > 0 {
      ShlIsProduct(v, w - 1);
      DoubleRight(v, Pow2(w - 1));
    }
  }

  lemma Pow2AboveSlots()
    ensures Pow2(27) == 0x800_0000 && Pow2(28) == 0x1000_0000
  {
    Pow2Word();
    assert Pow2(31) == 2 * Pow2(30) == 4 * Pow2(29) == 8 * Pow2(28);
    assert Pow2(28) == 2 * Pow2(27);
  }

  // ----- single bits

  lemma {:induction false} BitOr(a: nat, b: nat, j: nat)
    ensures Bit(Or(a, b), j) <==> Bit(a, j) || Bit(b, j)
  {
    if a == 0 && b == 0 {
      if j > 0 { BitOr(0, 0, j - 1); }
    } else {
      assert Or(a, b) / 2 == Or(a / 2, b / 2);
      if j > 0 { BitOr(a / 2, b / 2, j - 1); }
    }
  }

  lemma {:induction false} BitShr(v: nat, w: nat, j: nat)
    ensures Bit(Shr(v, w), j) <==> Bit(v, j + w)
  {
    if w > 0 { BitShr(v / 2, w - 1, j); }
  }

  lemma {:induction false} ShrShrinks(v: nat, w: nat)
    ensures Shr(v, w) <= v
  {
    if w > 0 { ShrShrinks(v / 2, w - 1); }
  }

  lemma {:induction false} OrBelow(a: nat, b: nat, m: nat)
    requires a < Pow2(m) && b < Pow2(m)
    ensures Or(a, b) < Pow2(m)
  {
    if m == 0 || (a == 0 && b == 0) {
    } else {
      OrBelow(a / 2, b / 2, m - 1);
    }
  }

  lemma {:induction false} AllOnes(v: nat, m: nat)
    requires v < Pow2(m)
    requires forall j :: 0 <= j < m ==> Bit(v, j)
    ensures v == Pow2(m) - 1
  {
    if m > 0 {
      assert Bit(v, 0);
      forall j | 0 <= j < m - 1 ensures Bit(v / 2, j) {
        assert Bit(v, j + 1);
      }
      AllOnes(v / 2, m - 1);
    }
  }

  /** The number of significant bits of a word. */
  ghost function BitLength(v: nat): nat {
    if v == 0 then 0 else 1 + BitLength(v / 2)
  }

  lemma {:induction false} BitLengthBounds(v: nat)
    ensures v < Pow2(BitLength(v))
    ensures v > 0 ==> Pow2(BitLength(v) - 1) <= v && Bit(v, BitLength(v) - 1)
  {
    if v > 0 { BitLengthBounds(v / 2); }
  }

  // ----- the power-of-two test  v & (v - 1) == 0

  lemma {:induction false} AndSelf(a: nat)
    ensures And(a, a) == a
  {
    if a > 0 { AndSelf(a / 2); }
  }

  lemma {:induction false} PowerTest(v: nat)
    requires v > 0
    ensures And(v, v - 1) == 0 <==> IsPow2(v)
  {
    if v == 1 {
      assert v == Pow2(0);
    } else if v % 2 == 1 {
      AndSelf(v / 2);
      assert (v - 1) / 2 == v / 2;
      forall k: nat ensures v != Pow2(k) {
        if k > 0 { assert Pow2(k) == 2 * Pow2(k - 1); }
      }
    } else {
      var h := v / 2;
      PowerTest(h);
      assert (v - 1) / 2 == h - 1;
      if IsPow2(h) {
        var k: nat :| h == Pow2(k);
        assert v == Pow2(k + 1);
      }
      if IsPow2(v) {
        var k: nat :| v == Pow2(k);
        assert k > 0 && h == Pow2(k - 1);
      }
    }
  }

  // ----- XOR with a block size

  lemma {:induction false} XorZero(a: nat)
    ensures Xor(a, 0) == a
  {
    if a > 0 { XorZero(a / 2); }
  }

  lemma {:induction false} XorSelfInverse(a: nat, b: nat)
    ensures Xor(Xor(a, b), b) == a
  {
    if a == 0 && b == 0 {
    } else {
      XorSelfInverse(a / 2, b / 2);
      var x := Xor(a, b);
      assert x / 2 == Xor(a / 2, b / 2);
      if x == 0 && b == 0 { XorZero(a); }
    }
  }

  lemma DoubleRight(i: nat, h: nat)
    ensures i * (2 * h) == 2 * (i * h)
  {
  }

  lemma XorDouble(a: nat, b: nat)
    ensures Xor(2 * a, 2 * b) == 2 * Xor(a, b)
  {
  }

  lemma XorOne(i: nat)
    ensures Xor(i, 1) == if i % 2 == 0 then i + 1 else i - 1
  {
    XorZero(i / 2);
  }

  /** Doubling an offset and its block size doubles the step to the neighbour. */
  lemma XorAlignedStep(i: nat, x: nat, h: nat)
    requires Xor(x, h) == if i % 2 == 0 then x + h else x - h
    ensures Xor(2 * x, 2 * h) == if i % 2 == 0 then 2 * x + 2 * h else 2 * x - 2 * h
  {
    XorDouble(x, h);
  }

  /** XOR of an aligned offset with its block size steps to the neighbour picked by the parity. */
  lemma {:induction false} XorAligned(i: nat, k: nat)
    ensures Xor(i * Pow2(k), Pow2(k))
         == if i % 2 == 0 then i * Pow2(k) + Pow2(k) else i * Pow2(k) - Pow2(k)
  {
    if k == 0 {
      XorOne(i);
    } else {
      XorAligned(i, k - 1);
      DoubleRight(i, Pow2(k - 1));
      XorAlignedStep(i, i * Pow2(k - 1), Pow2(k - 1));
    }
  }
}
