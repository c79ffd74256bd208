/**
  Exclusive-or on natural numbers, defined bit by bit.

  Working over `nat` keeps field elements, block indices and CRC remainders in one
  type, as they are in the tools being modelled, and makes every fact about
  exclusive-or an induction that holds at any width.
 */
module Bits {

  type byte = n: nat | n < 256

  /** The bit of `a` and `b` at weight one, added without carry. */
  function XorBit(a: nat, b: nat): (r: nat)
    ensures r < 2
  {
    if a % 2 == b % 2 then 0 else 1
  }

  function Xor(a: nat, b: nat): nat
    decreases a + b
  {
    if a == 0 && b == 0 then 0 else XorBit(a, b) + 2 * Xor(a / 2, b / 2)
  }

  function Pow2(n: nat): (r: nat)
    ensures r > 0
  {
    if n == 0 then 1 else 2 * Pow2(n - 1)
  }

  lemma {:induction false} XorStep(a: nat, b: nat)
    ensures Xor(a, b) % 2 == XorBit(a, b)
    ensures Xor(a, b) / 2 == Xor(a / 2, b / 2)
    ensures Xor(a, b) == XorBit(a, b) + 2 * Xor(a / 2, b / 2)
  {
    var bit, rest := XorBit(a, b), Xor(a / 2, b / 2);
    assert Xor(a, b) == bit + 2 * rest;
    assert (bit + 2 * rest) % 2 == bit && (bit + 2 * rest) / 2 == rest;
  }

  lemma {:induction false} XorZero(a: nat)
    ensures Xor(a, 0) == a && Xor(0, a) == a
  {
    if a > 0 {
      XorZero(a / 2);
    }
  }

  lemma {:induction false} XorSelf(a: nat)
    ensures Xor(a, a) == 0
  {
    if a > 0 {
      XorSelf(a / 2);
    }
  }

  lemma {:induction false} XorCommutes(a: nat, b: nat)
    ensures Xor(a, b) == Xor(b, a)
    decreases a + b
  {
    if a + b > 0 {
      XorCommutes(a / 2, b / 2);
    }
  }

  lemma {:induction false} XorAssociates(a: nat, b: nat, c: nat)
    ensures Xor(Xor(a, b), c) == Xor(a, Xor(b, c))
    decreases a + b + c
  {
    if a + b + c > 0 {
      var ab, bc := Xor(a, b), Xor(b, c);
      XorStep(a, b);
      XorStep(b, c);
      XorAssociates(a / 2, b / 2, c / 2);
      XorStep(ab, c);
      XorStep(a, bc);
      assert XorBit(ab, c) == XorBit(a, bc);
    }
  }

  /** (a + b) + (c + d) = (a + c) + (b + d). */
  lemma XorExchange(a: nat, b: nat, c: nat, d: nat)
    ensures Xor(Xor(a, b), Xor(c, d)) == Xor(Xor(a, c), Xor(b, d))
  {
    XorAssociates(a, b, Xor(c, d));
    XorAssociates(b, c, d);
    XorCommutes(b, c);
    XorAssociates(c, b, d);
    XorAssociates(a, c, Xor(b, d));
  }

  lemma XorCancel(a: nat, b: nat)
    ensures Xor(Xor(a, b), b) == a
    ensures Xor(b, Xor(b, a)) == a
    ensures Xor(a, b) == 0 <==> a == b
  {
    XorAssociates(a, b, b);
    XorAssociates(b, b, a);
    XorSelf(b);
    XorZero(a);
    XorZero(b);
  }

  lemma {:induction false} XorBound(a: nat, b: nat, n: nat)
    requires a < Pow2(n) && b < Pow2(n)
    ensures Xor(a, b) < Pow2(n)
  {
    if n > 0 && a + b > 0 {
      XorBound(a / 2, b / 2, n - 1);
    }
  }

  lemma XorOfBytes(a: byte, b: byte)
    ensures Xor(a, b) < 256
  {
    assert Pow2(8) == 256;
    XorBound(a, b, 8);
  }

  /** Exclusive-or of bytes, as a byte. */
  function XorByte(a: byte, b: byte): byte {
    XorOfBytes(a, b);
    Xor(a, b)
  }

  lemma XorEven(a: nat, b: nat)
    ensures Xor(2 * a, 2 * b) == 2 * Xor(a, b)
  {
    XorStep(2 * a, 2 * b);
    assert (2 * a) / 2 == a && (2 * b) / 2 == b;
  }

  /** Left shift by `n` bits. */
  function Shift(a: nat, n: nat): nat
    decreases n
  {
    if n == 0 then a else 2 * Shift(a, n - 1)
  }

  lemma {:induction false} XorOfShifts(a: nat, b: nat, n: nat)
    ensures Xor(Shift(a, n), Shift(b, n)) == Shift(Xor(a, b), n)
    decreases n
  {
    if n > 0 {
      XorEven(Shift(a, n - 1), Shift(b, n - 1));
      XorOfShifts(a, b, n - 1);
    }
  }

  /** Operands with no common bit position add. */
  lemma {:induction false} XorDisjoint(low: nat, high: nat, n: nat)
    requires low < Pow2(n)
    ensures Xor(low, Shift(high, n)) == low + Shift(high, n)
    decreases n
  {
    if n == 0 {
      XorZero(high);
    } else {
      var h := Shift(high, n - 1);
      XorDisjoint(low / 2, high, n - 1);
      XorStep(low, 2 * h);
      assert (2 * h) / 2 == h && (2 * h) % 2 == 0;
    }
  }

  /** Right shift by `n` bits. */
  function Halve(a: nat, n: nat): nat
    decreases n
  {
    if n == 0 then a else Halve(a / 2, n - 1)
  }

  lemma {:induction false} HalveXor(a: nat, b: nat, n: nat)
    ensures Halve(Xor(a, b), n) == Xor(Halve(a, n), Halve(b, n))
    decreases n
  {
    if n > 0 {
      XorStep(a, b);
      HalveXor(a / 2, b / 2, n - 1);
    }
  }
}
