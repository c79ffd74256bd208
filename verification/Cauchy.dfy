/**
  Linear systems whose coefficients are the Cauchy entries 1 / (x + i).

  `Syndrome(d, x, n)` is the left-hand side of the equation of row `x`. One
  elimination step turns the equations of two rows into one equation of the same
  shape in which the unknown `i0` has coefficient zero; both directions of the
  non-singularity theorem are inductions on that step.
 */
module Cauchy {
  import opened Bits
  import opened Gf256
  import opened Gf256Inverse

  /** The coefficient of unknown `i` in row `x`. */
  function Entry(x: byte, i: byte): byte {
    Inv(XorByte(x, i))
  }

  /** The sum over i < n of d[i] / (x + i). */
  function Syndrome(d: seq<byte>, x: byte, n: nat): byte
    requires n <= |d| <= 255
    decreases n
  {
    if n == 0 then 0 else XorByte(Syndrome(d, x, n - 1), Mul(d[n - 1], Entry(x, n - 1)))
  }

  ghost predicate Solves(d: seq<byte>, rows: set<byte>)
    requires |d| <= 255
  {
    forall x :: x in rows ==> Syndrome(d, x, |d|) == 0
  }

  /** No row index is also a column index. */
  ghost predicate RowsAbove(k: nat, rows: set<byte>) {
    forall x :: x in rows ==> x >= k
  }

  ghost predicate Zero(d: seq<byte>) {
    forall i :: 0 <= i < |d| ==> d[i] == 0
  }

  /** Every nonzero unknown lies in `support`. */
  ghost predicate Supported(d: seq<byte>, support: set<nat>) {
    forall i :: 0 <= i < |d| && i !in support ==> d[i] == 0
  }

  // ----- field algebra

  /** 1/a + 1/b = (a + b) / (a b). */
  lemma SumOfInverses(a: byte, b: byte)
    requires a != 0 && b != 0
    ensures XorByte(Inv(a), Inv(b)) == Mul(XorByte(a, b), Mul(Inv(a), Inv(b)))
  {
    hide Mul, Inv, XorByte;
    var p, q := Inv(a), Inv(b);
    DistributesLeft(a, b, Mul(p, q));
    Associative(a, p, q);
    Inverse(a);
    OneIsNeutral(q);
    Commutative(p, q);
    Associative(b, q, p);
    Inverse(b);
    OneIsNeutral(p);
    XorByteCommutes(p, q);
  }

  lemma XorByteCommutes(a: byte, b: byte)
    ensures XorByte(a, b) == XorByte(b, a)
  {
    XorCommutes(a, b);
  }

  /** (a + c)/a + (b + c)/b = c/a + c/b. */
  lemma UnitPartsCancel(a: byte, b: byte, c: byte)
    requires a != 0 && b != 0
    ensures XorByte(Mul(XorByte(a, c), Inv(a)), Mul(XorByte(b, c), Inv(b)))
         == Mul(c, XorByte(Inv(a), Inv(b)))
  {
    hide Mul, Inv;
    DistributesLeft(a, c, Inv(a));
    DistributesLeft(b, c, Inv(b));
    Inverse(a);
    Inverse(b);
    DistributesRight(c, Inv(a), Inv(b));
    XorExchange(1, Mul(c, Inv(a)), 1, Mul(c, Inv(b)));
    XorSelf(1);
    XorZero(Mul(c, XorByte(Inv(a), Inv(b))));
  }

  /** What elimination does to one unknown, with a = x + i, b = x0 + i, c = i + i0. */
  lemma EliminateTerm(v: byte, a: byte, b: byte, c: byte)
    requires a != 0 && b != 0
    ensures Mul(XorByte(a, b), Mul(Mul(Mul(v, c), Inv(b)), Inv(a)))
         == XorByte(Mul(XorByte(a, c), Mul(v, Inv(a))), Mul(XorByte(b, c), Mul(v, Inv(b))))
  {
    hide *;
    var p, q := Inv(a), Inv(b);
    UnitPartsCancel(a, b, c);
    SumOfInverses(a, b);
    MovesOut(XorByte(a, c), v, p);
    MovesOut(XorByte(b, c), v, q);
    DistributesRight(v, Mul(XorByte(a, c), p), Mul(XorByte(b, c), q));
    // both sides are v * (c * ((a + b) * (p * q)))
    Associative(Mul(v, c), q, p);
    Commutative(q, p);
    MovesOut(XorByte(a, b), Mul(v, c), Mul(p, q));
    Associative(v, c, Mul(XorByte(a, b), Mul(p, q)));
  }

  /** s * (v * t) = v * (s * t). */
  lemma MovesOut(s: byte, v: byte, t: byte)
    ensures Mul(s, Mul(v, t)) == Mul(v, Mul(s, t))
  {
    hide Mul;
    Associative(s, v, t);
    Commutative(s, v);
    Associative(v, s, t);
  }

  // ----- elimination

  /** The unknowns after eliminating `i0` with row `x0`; entry `i0` becomes zero. */
  function Eliminated(d: seq<byte>, i0: byte, x0: byte): (r: seq<byte>)
    requires |d| <= 255
    ensures |r| == |d|
  {
    seq(|d|, i requires 0 <= i < |d| => Mul(Mul(d[i], XorByte(i, i0)), Entry(x0, i)))
  }

  lemma SumsOfIndices(x: byte, x0: byte, i: byte, i0: byte)
    ensures XorByte(XorByte(x, i), XorByte(x0, i)) == XorByte(x, x0)
    ensures XorByte(XorByte(x, i), XorByte(i, i0)) == XorByte(x, i0)
  {
    XorExchange(x, i, x0, i);
    XorSelf(i);
    XorZero(Xor(x, x0));
    XorAssociates(x, i, Xor(i, i0));
    XorCancel(i0, i);
  }

  lemma DistinctSum(x: byte, y: byte)
    ensures XorByte(x, y) == 0 <==> x == y
  {
    XorCancel(x, y);
  }

  /** (x + x0) * (eliminated row x) = (x + i0) * (row x) + (x0 + i0) * (row x0). */
  lemma {:induction false} EliminateRow(d: seq<byte>, i0: byte, x: byte, x0: byte, n: nat)
    requires n <= |d| <= 255 && x >= |d| && x0 >= |d|
    ensures Mul(XorByte(x, x0), Syndrome(Eliminated(d, i0, x0), x, n))
         == XorByte(Mul(XorByte(x, i0), Syndrome(d, x, n)), Mul(XorByte(x0, i0), Syndrome(d, x0, n)))
    decreases n
  {
    hide Mul, Inv, XorByte;
    var e := Eliminated(d, i0, x0);
    if n == 0 {
      ZeroAnnihilates(XorByte(x, x0));
      ZeroAnnihilates(XorByte(x, i0));
      ZeroAnnihilates(XorByte(x0, i0));
      DistinctSum(0, 0);
    } else {
      var i := n - 1;
      EliminateRow(d, i0, x, x0, i);
      var a, b, c := XorByte(x, i), XorByte(x0, i), XorByte(i, i0);
      DistinctSum(x, i);
      DistinctSum(x0, i);
      EliminateTerm(d[i], a, b, c);
      SumsOfIndices(x, x0, i, i0);
      SumsOfIndices(x0, x, i, i0);
      EliminateSum(XorByte(x, x0), Syndrome(e, x, i), Mul(e[i], Inv(a)),
                   XorByte(x, i0), Syndrome(d, x, i), Mul(d[i], Inv(a)),
                   XorByte(x0, i0), Syndrome(d, x0, i), Mul(d[i], Inv(b)));
    }
  }

  /** Adds one term to each of the three sums of `EliminateRow`. */
  lemma EliminateSum(s: byte, s0: byte, s1: byte, t: byte, t0: byte, t1: byte, u: byte, u0: byte, u1: byte)
    requires Mul(s, s0) == XorByte(Mul(t, t0), Mul(u, u0))
    requires Mul(s, s1) == XorByte(Mul(t, t1), Mul(u, u1))
    ensures Mul(s, XorByte(s0, s1)) == XorByte(Mul(t, XorByte(t0, t1)), Mul(u, XorByte(u0, u1)))
  {
    hide Mul;
    DistributesRight(s, s0, s1);
    DistributesRight(t, t0, t1);
    DistributesRight(u, u0, u1);
    XorExchange(Mul(t, t0), Mul(u, u0), Mul(t, t1), Mul(u, u1));
  }

  lemma {:induction false} SyndromeOfZero(d: seq<byte>, x: byte, n: nat)
    requires n <= |d| <= 255
    requires forall i :: 0 <= i < n ==> d[i] == 0
    ensures Syndrome(d, x, n) == 0
    decreases n
  {
    XorZero(0);
    if n > 0 {
      SyndromeOfZero(d, x, n - 1);
      ZeroAnnihilates(Entry(x, n - 1));
    }
  }

  /** A row that sees a single unknown shows it. */
  lemma {:induction false} SyndromeOfOne(d: seq<byte>, i0: nat, x: byte, n: nat)
    requires i0 < n <= |d| <= 255
    requires forall i :: 0 <= i < n && i != i0 ==> d[i] == 0
    ensures Syndrome(d, x, n) == Mul(d[i0], Entry(x, i0))
    decreases n
  {
    hide Mul, Inv;
    var last := Mul(d[n - 1], Entry(x, n - 1));
    XorZero(last);
    if n - 1 == i0 {
      SyndromeOfZero(d, x, n - 1);
    } else {
      SyndromeOfOne(d, i0, x, n - 1);
      ZeroAnnihilates(Entry(x, n - 1));
      XorZero(Syndrome(d, x, n - 1));
    }
  }

  lemma EntryNonzero(x: byte, i: byte)
    requires x != i
    ensures Entry(x, i) != 0
  {
    hide Mul, Inv;
    var a := XorByte(x, i);
    DistinctSum(x, i);
    Inverse(a);
    ZeroAnnihilates(a);
  }

  /** Elimination zeroes unknown `i0` and no other. */
  lemma EliminatedAt(d: seq<byte>, i0: byte, x0: byte, i: nat)
    requires i < |d| <= 255 && x0 >= |d|
    ensures Eliminated(d, i0, x0)[i] == 0 <==> d[i] == 0 || i == i0
  {
    hide Mul, Inv;
    DistinctSum(i, i0);
    EntryNonzero(x0, i);
    NoZeroDivisors(d[i], XorByte(i, i0));
    NoZeroDivisors(Mul(d[i], XorByte(i, i0)), Entry(x0, i));
  }

  lemma EliminatedSolves(d: seq<byte>, i0: byte, x0: byte, rows: set<byte>)
    requires |d| <= 255 && x0 in rows && RowsAbove(|d|, rows) && Solves(d, rows)
    ensures Solves(Eliminated(d, i0, x0), rows - {x0})
  {
    hide Mul, Inv, Syndrome;
    forall x | x in rows - {x0}
      ensures Syndrome(Eliminated(d, i0, x0), x, |d|) == 0
    {
      EliminateRow(d, i0, x, x0, |d|);
      ZeroAnnihilates(XorByte(x, i0));
      ZeroAnnihilates(XorByte(x0, i0));
      XorZero(0);
      DistinctSum(x, x0);
      NoZeroDivisors(XorByte(x, x0), Syndrome(Eliminated(d, i0, x0), x, |d|));
    }
  }

  /** As many rows as unknowns leave only the zero solution. */
  lemma {:induction false} Nonsingular(d: seq<byte>, support: set<nat>, rows: set<byte>)
    requires |d| <= 255 && RowsAbove(|d|, rows) && Solves(d, rows)
    requires Supported(d, support) && |support| <= |rows|
    ensures Zero(d)
    decreases |support|
  {
    hide Mul, Inv, Syndrome, Eliminated;
    if i0 :| 0 <= i0 < |d| && d[i0] != 0 {
      var x0 :| x0 in rows;
      var e := Eliminated(d, i0, x0);
      forall i | 0 <= i < |d| ensures e[i] == 0 <==> d[i] == 0 || i == i0 {
        EliminatedAt(d, i0, x0, i);
      }
      EliminatedSolves(d, i0, x0, rows);
      Nonsingular(e, support - {i0}, rows - {x0});
      SyndromeOfOne(d, i0, x0, |d|);
      EntryNonzero(x0, i0);
      NoZeroDivisors(d[i0], Entry(x0, i0));
      assert false;
    }
  }

  // ----- the converse: undoing an elimination step

  /** The unknowns that eliminate to `e`, with zero for the one eliminated. */
  function Restored(e: seq<byte>, i0: byte, x0: byte): (r: seq<byte>)
    requires |e| <= 255
    ensures |r| == |e|
  {
    seq(|e|, i requires 0 <= i < |e| =>
      if i == i0 then 0 else Mul(Mul(e[i], XorByte(x0, i)), Inv(XorByte(i, i0))))
  }

  /** v * a / b * b / a = v. */
  lemma RestoreTerm(v: byte, a: byte, b: byte)
    requires a != 0 && b != 0
    ensures Mul(Mul(Mul(Mul(v, a), Inv(b)), b), Inv(a)) == v
  {
    hide Mul, Inv;
    Associative(Mul(v, a), Inv(b), b);
    Commutative(Inv(b), b);
    Inverse(b);
    OneIsNeutral(Mul(v, a));
    Associative(v, a, Inv(a));
    Inverse(a);
    OneIsNeutral(v);
  }

  lemma RestoredEliminates(e: seq<byte>, i0: byte, x0: byte, v: byte)
    requires i0 < |e| <= 255 && x0 >= |e| && e[i0] == 0
    ensures Eliminated(Restored(e, i0, x0)[i0 := v], i0, x0) == e
  {
    hide Mul, Inv;
    var d := Restored(e, i0, x0)[i0 := v];
    forall i | 0 <= i < |e| ensures Eliminated(d, i0, x0)[i] == e[i] {
      if i == i0 {
        EliminatedAt(d, i0, x0, i);
      } else {
        DistinctSum(x0, i);
        DistinctSum(i, i0);
        RestoreTerm(e[i], XorByte(x0, i), XorByte(i, i0));
      }
    }
  }

  lemma {:induction false} SyndromeUpdate(d: seq<byte>, i0: nat, v: byte, x: byte, n: nat)
    requires i0 < |d| <= 255 && n <= |d| && d[i0] == 0
    ensures Syndrome(d[i0 := v], x, n)
         == if i0 < n then XorByte(Syndrome(d, x, n), Mul(v, Entry(x, i0))) else Syndrome(d, x, n)
    decreases n
  {
    hide Mul, Inv;
    if n > 0 {
      SyndromeUpdate(d, i0, v, x, n - 1);
      var before, last := Syndrome(d, x, n - 1), Mul(d[n - 1], Entry(x, n - 1));
      if i0 == n - 1 {
        ZeroAnnihilates(Entry(x, i0));
        XorZero(before);
      } else if i0 < n - 1 {
        XorAssociates(before, Mul(v, Entry(x, i0)), last);
        XorCommutes(Mul(v, Entry(x, i0)), last);
        XorAssociates(before, last, Mul(v, Entry(x, i0)));
      }
    }
  }

  /** The value of unknown `i0` that satisfies row `x0`. */
  function Balance(d: seq<byte>, i0: byte, x0: byte): byte
    requires |d| <= 255
  {
    Mul(Syndrome(d, x0, |d|), XorByte(x0, i0))
  }

  lemma BalanceSolves(d: seq<byte>, i0: byte, x0: byte)
    requires i0 < |d| <= 255 && d[i0] == 0 && x0 >= |d|
    ensures Syndrome(d[i0 := Balance(d, i0, x0)], x0, |d|) == 0
  {
    hide Mul, Inv;
    var s, a := Syndrome(d, x0, |d|), XorByte(x0, i0);
    SyndromeUpdate(d, i0, Mul(s, a), x0, |d|);
    Associative(s, a, Inv(a));
    DistinctSum(x0, i0);
    Inverse(a);
    OneIsNeutral(s);
    XorSelf(s);
  }

  lemma RestoredSolves(e: seq<byte>, d: seq<byte>, i0: byte, x0: byte, rows: set<byte>)
    requires i0 < |e| == |d| <= 255 && x0 in rows && RowsAbove(|e|, rows)
    requires Eliminated(d, i0, x0) == e && Syndrome(d, x0, |d|) == 0 && Solves(e, rows - {x0})
    ensures Solves(d, rows)
  {
    hide Mul, Inv, Syndrome;
    forall x | x in rows
      ensures Syndrome(d, x, |d|) == 0
    {
      if x != x0 {
        EliminateRow(d, i0, x, x0, |d|);
        ZeroAnnihilates(XorByte(x, x0));
        ZeroAnnihilates(XorByte(x0, i0));
        XorZero(Mul(XorByte(x, i0), Syndrome(d, x, |d|)));
        DistinctSum(x, i0);
        NoZeroDivisors(XorByte(x, i0), Syndrome(d, x, |d|));
      }
    }
  }

  /** Fewer rows than unknowns always leave a nonzero solution. */
  lemma {:induction false} Singular(k: nat, support: set<nat>, rows: set<byte>) returns (d: seq<byte>)
    requires k <= 255 && RowsAbove(k, rows) && |rows| < |support|
    requires forall i :: i in support ==> i < k
    ensures |d| == k && Supported(d, support) && !Zero(d) && Solves(d, rows)
    decreases |rows|
  {
    hide Mul, Inv, Syndrome, Eliminated, Balance;
    var i0 :| i0 in support;
    if rows == {} {
      d := seq(k, i => if i == i0 then 1 else 0);
      assert d[i0] == 1;
    } else {
      var x0 :| x0 in rows;
      var e := Singular(k, support - {i0}, rows - {x0});
      var r := Restored(e, i0, x0);
      d := r[i0 := Balance(r, i0, x0)];
      BalanceSolves(r, i0, x0);
      RestoredEliminates(e, i0, x0, Balance(r, i0, x0));
      RestoredSolves(e, d, i0, x0, rows);
      forall i | 0 <= i < k ensures e[i] == 0 <==> d[i] == 0 || i == i0 {
        EliminatedAt(d, i0, x0, i);
      }
      var j :| 0 <= j < k && e[j] != 0;
      assert d[j] != 0;
    }
  }
}
