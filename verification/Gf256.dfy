/**
  Bit-serial arithmetic in GF(2^8) reduced by x^8 + x^4 + x^3 + x^2 + 1.

  `Mul` follows the shift-and-add loop of the multiplier. The ring laws come from its
  bilinearity over exclusive-or; inverses come from 2 being a primitive element, whose
  powers `Gf256Inverse` lists.
 */
module Gf256 {
  import opened Bits
  import opened Outcomes

  const GF_REDUCTION_POLYNOMIAL: nat := 0x11D

  /** The reduction applied after shifting `a`: the polynomial, or nothing. */
  function Reduction(a: byte): nat {
    if a < 128 then 0 else GF_REDUCTION_POLYNOMIAL
  }

  /** One step of the multiplicand: shift left, then reduce. */
  function Double(a: byte): byte {
    DoubleIsByte(a);
    Xor(2 * a, Reduction(a))
  }

  /** Shift and add: one partial product for each bit of `b`. */
  function Mul(a: byte, b: byte): byte
    decreases b
  {
    if b == 0 then 0 else XorByte(if b % 2 == 0 then 0 else a, Mul(Double(a), b / 2))
  }

  function Pow(v: byte, e: nat): byte {
    if e == 0 then 1 else Mul(v, Pow(v, e - 1))
  }

  // ----- the doubling step

  lemma DoubleIsByte(a: byte)
    ensures Xor(2 * a, Reduction(a)) < 256
    ensures a >= 128 ==> Xor(2 * a, Reduction(a)) == Xor(2 * a - 256, 0x1D)
  {
    XorZero(2 * a);
    if a >= 128 {
      var low: byte := 2 * a - 256;
      var bit := Shift(1, 8);
      assert bit == 256;
      XorDisjoint(low, 1, 8);
      XorDisjoint(0x1D, 1, 8);
      XorExchange(low, bit, 0x1D, bit);
      XorSelf(bit);
      XorZero(Xor(low, 0x1D));
      XorOfBytes(low, 0x1D);
    }
  }

  lemma TopBitXor(a: byte, b: byte)
    ensures XorByte(a, b) >= 128 <==> (a >= 128) != (b >= 128)
  {
    HalveXor(a, b, 7);
    Halve7(a);
    Halve7(b);
    Halve7(XorByte(a, b));
    XorStep(a / 128, b / 128);
  }

  lemma Halve7(a: byte)
    ensures Halve(a, 7) == a / 128
    ensures a / 128 == if a >= 128 then 1 else 0
  {
  }

  lemma ReductionXor(a: byte, b: byte)
    ensures Reduction(XorByte(a, b)) == Xor(Reduction(a), Reduction(b))
  {
    TopBitXor(a, b);
    XorZero(Reduction(a));
    XorZero(Reduction(b));
    XorSelf(Reduction(a));
  }

  lemma DoubleXor(a: byte, b: byte)
    ensures Double(XorByte(a, b)) == XorByte(Double(a), Double(b))
  {
    ReductionXor(a, b);
    XorEven(a, b);
    XorExchange(2 * a, 2 * b, Reduction(a), Reduction(b));
  }

  // ----- bilinearity

  lemma {:induction false} DistributesLeft(a: byte, b: byte, c: byte)
    ensures Mul(XorByte(a, b), c) == XorByte(Mul(a, c), Mul(b, c))
    decreases c
  {
    XorZero(0);
    if c > 0 {
      DoubleXor(a, b);
      DistributesLeft(Double(a), Double(b), c / 2);
      var x, y := Mul(Double(a), c / 2), Mul(Double(b), c / 2);
      if c % 2 == 0 {
        XorExchange(0, x, 0, y);
      } else {
        XorExchange(a, x, b, y);
      }
    }
  }

  /** The recursion equation of `Mul` also holds when no bits are left. */
  lemma MulStep(a: byte, b: byte)
    ensures Mul(a, b) == XorByte(if b % 2 == 0 then 0 else a, Mul(Double(a), b / 2))
  {
    XorZero(0);
  }

  lemma {:induction false} DistributesRight(a: byte, b: byte, c: byte)
    ensures Mul(a, XorByte(b, c)) == XorByte(Mul(a, b), Mul(a, c))
    decreases b + c
  {
    XorZero(0);
    if b + c > 0 {
      XorStep(b, c);
      DistributesRight(Double(a), b / 2, c / 2);
      var x, y := Mul(Double(a), b / 2), Mul(Double(a), c / 2);
      var p := if b % 2 == 0 then 0 else a;
      var q := if c % 2 == 0 then 0 else a;
      MulStep(a, b);
      MulStep(a, c);
      MulStep(a, XorByte(b, c));
      XorExchange(p, x, q, y);
      XorZero(a);
      XorSelf(a);
    }
  }

  lemma ZeroAnnihilates(a: byte)
    ensures Mul(a, 0) == 0 && Mul(0, a) == 0
  {
    XorZero(0);
    DistributesLeft(0, 0, a);
    XorSelf(Mul(0, a));
  }

  lemma {:induction false} DoubleLeft(a: byte, b: byte)
    ensures Mul(Double(a), b) == Double(Mul(a, b))
    decreases b
  {
    XorZero(0);
    if b > 0 {
      DoubleXor(if b % 2 == 0 then 0 else a, Mul(Double(a), b / 2));
      DoubleLeft(Double(a), b / 2);
    }
  }

  // ----- one is neutral

  lemma {:induction false} ShiftHalf(a: nat, j: nat)
    ensures Shift(a, j) == (if a % 2 == 0 then 0 else Pow2(j)) + Shift(a / 2, j + 1)
    decreases j
  {
    if j > 0 {
      ShiftHalf(a, j - 1);
    }
  }

  lemma {:induction false} ShiftAtLeast(a: nat, j: nat)
    ensures a > 0 ==> Shift(a, j) >= Pow2(j)
    ensures Shift(0, j) == 0
    decreases j
  {
    if j > 0 {
      ShiftAtLeast(a, j - 1);
    }
  }

  /** Multiplying a power of two by `a` shifts `a`, as long as the result is a byte. */
  lemma {:induction false} PowerTimes(p: byte, j: nat, a: byte)
    requires p == Pow2(j) && Shift(a, j) < 256
    ensures Mul(p, a) == Shift(a, j)
    decreases a
  {
    ShiftAtLeast(a, j);
    if a > 0 {
      var bit: byte := if a % 2 == 0 then 0 else p;
      ShiftHalf(a, j);
      XorDisjoint(bit, a / 2, j + 1);
      ShiftAtLeast(a / 2, j + 1);
      if a / 2 == 0 {
        assert Mul(Double(p), a / 2) == 0;
      } else {
        XorZero(2 * p);
        PowerTimes(2 * p, j + 1, a / 2);
      }
    }
  }

  lemma OneLeft(a: byte)
    ensures Mul(1, a) == a
  {
    PowerTimes(1, 0, a);
  }

  // ----- the commutative ring laws

  /** Scaling by `a` on the right is additive and commutes with doubling, hence with `Mul`. */
  lemma {:induction false} ScalesThrough(x: byte, a: byte, b: byte)
    ensures Mul(Mul(x, a), b) == Mul(Mul(x, b), a)
    decreases b
  {
    ZeroAnnihilates(a);
    if b > 0 {
      var head, tail := if b % 2 == 0 then 0 else x, Mul(Double(x), b / 2);
      DistributesLeft(head, tail, a);
      DoubleLeft(x, a);
      ScalesThrough(Double(x), a, b / 2);
    }
  }

  lemma Commutative(a: byte, b: byte)
    ensures Mul(a, b) == Mul(b, a)
  {
    ScalesThrough(1, a, b);
    OneLeft(a);
    OneLeft(b);
  }

  lemma OneIsNeutral(a: byte)
    ensures Mul(1, a) == a && Mul(a, 1) == a
  {
    OneLeft(a);
    Commutative(1, a);
  }

  lemma Associative(a: byte, b: byte, c: byte)
    ensures Mul(a, Mul(b, c)) == Mul(Mul(a, b), c)
  {
    Commutative(a, Mul(b, c));
    ScalesThrough(b, c, a);
    Commutative(a, b);
  }

  // ----- powers

  lemma {:induction false} PowAdd(v: byte, e: nat, f: nat)
    ensures Pow(v, e + f) == Mul(Pow(v, e), Pow(v, f))
    decreases e
  {
    hide Mul;
    if e == 0 {
      OneIsNeutral(Pow(v, f));
    } else {
      PowAdd(v, e - 1, f);
      Associative(v, Pow(v, e - 1), Pow(v, f));
    }
  }

  lemma {:induction false} PowOne(e: nat)
    ensures Pow(1, e) == 1
  {
    if e > 0 {
      PowOne(e - 1);
      OneIsNeutral(1);
    }
  }

  lemma {:induction false} PowOfProduct(v: byte, w: byte, e: nat)
    ensures Pow(Mul(v, w), e) == Mul(Pow(v, e), Pow(w, e))
    decreases e
  {
    hide Mul;
    OneIsNeutral(1);
    if e > 0 {
      PowOfProduct(v, w, e - 1);
      MulExchange(v, w, Pow(v, e - 1), Pow(w, e - 1));
    }
  }

  lemma MulExchange(a: byte, b: byte, c: byte, d: byte)
    ensures Mul(Mul(a, b), Mul(c, d)) == Mul(Mul(a, c), Mul(b, d))
  {
    Associative(a, b, Mul(c, d));
    Associative(b, c, d);
    Commutative(b, c);
    Associative(c, b, d);
    Associative(a, c, Mul(b, d));
  }

  lemma DoubleIsTwice(a: byte)
    ensures Double(a) == Mul(2, a)
  {
    OneLeft(a);
    DoubleLeft(1, a);
    assert Double(1) == 2 by {
      XorZero(2);
    }
  }

  // ----- the loops

  /** `gf_mul`: eight shift-and-add rounds, refusing operands that are not bytes. */
  method GfMul(left: int, right: int) returns (r: Option<byte>)
    ensures r == if 0 <= left < 256 && 0 <= right < 256 then Some(Mul(left, right)) else None
  {
    if !(0 <= left < 256 && 0 <= right < 256) {
      return None;
    }
    hide Mul, Xor, XorByte, Double, Pow2;
    var a: nat, b: nat, product: byte := left, right, 0;
    ghost var expected := Mul(left, right);
    AddZero(expected);
    Pow2Values();
    for i := 0 to 8
      invariant a < 256 && b < 256 && b < Pow2(8 - i)
      invariant XorByte(product, Mul(a, b)) == expected
    {
      RoundKeeps(product, a, b, 8 - i, expected);
      if b % 2 == 1 {
        product := XorByte(product, a);
      }
      b := b / 2;
      a := 2 * a;
      if a >= 0x100 {
        a := Xor(a, GF_REDUCTION_POLYNOMIAL);
      }
    }
    LastRound(product, a, b);
    return Some(product);
  }

  /** What a round of the loop makes of `a`. */
  function Shifted(a: byte): nat {
    if 2 * a >= 0x100 then Xor(2 * a, GF_REDUCTION_POLYNOMIAL) else 2 * a
  }

  /** The sum and what is still to be added stay the product. */
  lemma RoundKeeps(product: byte, a: byte, b: byte, n: nat, expected: byte)
    requires 0 < n && b < Pow2(n) && XorByte(product, Mul(a, b)) == expected
    ensures Shifted(a) < 256 && b / 2 < Pow2(n - 1)
    ensures XorByte(if b % 2 == 1 then XorByte(product, a) else product, Mul(Shifted(a), b / 2)) == expected
  {
    hide Mul, Xor, XorByte, Pow2, Double;
    Round(product, a, b);
    Halves(b, n);
    DoubleRound(a);
  }

  lemma LastRound(product: byte, a: byte, b: byte)
    requires b < Pow2(0)
    ensures XorByte(product, Mul(a, b)) == product
  {
    hide Mul, Xor, XorByte;
    ZeroAnnihilates(a);
    AddZero(product);
  }

  lemma AddZero(v: byte)
    ensures XorByte(0, v) == v && XorByte(v, 0) == v
  {
    XorZero(v);
  }

  lemma Pow2Values()
    ensures Pow2(8) == 256 && Pow2(0) == 1
  {
  }

  lemma Halves(b: nat, n: nat)
    requires 0 < n && b < Pow2(n)
    ensures b / 2 < Pow2(n - 1)
  {
  }

  /** One round moves the partial product of the low bit into the sum. */
  lemma Round(product: byte, a: byte, b: byte)
    ensures XorByte(product, Mul(a, b))
         == XorByte(if b % 2 == 1 then XorByte(product, a) else product, Mul(Double(a), b / 2))
  {
    hide Mul, Xor, Double;
    var rest := Mul(Double(a), b / 2);
    MulStep(a, b);
    XorZero(rest);
    XorAssociates(product, a, rest);
  }

  lemma DoubleRound(a: byte)
    ensures Double(a) == if 2 * a >= 0x100 then Xor(2 * a, GF_REDUCTION_POLYNOMIAL) else 2 * a
  {
    hide Xor;
    XorZero(2 * a);
  }

  /** `gf_pow`: square and multiply. A zero exponent never looks at the base. */
  method GfPow(base: int, exponent: int) returns (r: Option<byte>)
    ensures r == if exponent < 0 then None
                 else if exponent == 0 then Some(1)
                 else if 0 <= base < 256 then Some(Pow(base, exponent)) else None
  {
    if exponent < 0 {
      return None;
    }
    var result: byte, value, e := 1, base, exponent;
    ghost var expected := if 0 <= base < 256 then Pow(base, exponent) else 0;
    if 0 <= base < 256 {
      OneIsNeutral(expected);
    }
    while e > 0
      invariant e >= 0
      invariant 0 <= base < 256 ==> 0 <= value < 256 && Mul(result, Pow(value, e)) == expected
      invariant !(0 <= base < 256) ==> value == base && e == exponent
      invariant exponent == 0 ==> result == 1
    {
      if 0 <= value < 256 {
        SquareAndMultiply(result, value, e);
      }
      if e % 2 == 1 {
        var product := GfMul(result, value);
        if product.None? {
          return None;
        }
        result := product.value;
      }
      var square := GfMul(value, value);
      if square.None? {
        return None;
      }
      value := square.value;
      e := e / 2;
    }
    OneIsNeutral(result);
    return Some(result);
  }

  lemma PowStep(v: byte, e: nat)
    requires e > 0
    ensures Pow(v, e) == Mul(v, Pow(v, e - 1))
  {
    hide Mul;
  }

  lemma SquareAndMultiply(result: byte, value: byte, e: nat)
    requires e > 0
    ensures Mul(result, Pow(value, e))
         == Mul(if e % 2 == 1 then Mul(result, value) else result, Pow(Mul(value, value), e / 2))
  {
    hide Mul, Pow;
    var half := e / 2;
    PowOfProduct(value, value, half);
    PowAdd(value, half, half);
    if e % 2 == 1 {
      PowStep(value, e);
      Associative(result, value, Pow(value, e - 1));
    }
  }
}
