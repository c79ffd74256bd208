/**
  The stripe interleave, and the longest tape burst every stripe survives.

  An epoch of R real data blocks is dealt into S stripes: the block at offset
  i * S + s is data shard i of stripe s, and block j * S + s of the parity file is
  parity shard j of stripe s. A burst across the boundary between the two files
  takes the last `a` data blocks and the first `b` parity blocks.
 */
module Stripes {
  import opened Bits
  import opened ParityCode
  import opened Arithmetic

  /** The geometry of one epoch and of the burst that hits it. */
  datatype Burst = Burst(k: nat, m: nat, stripes: nat, blocks: nat, a: nat, b: nat) {
    ghost predicate Valid() {
      && ValidScheme(k, m) && stripes >= 1
      && 0 < blocks <= k * stripes
      && 1 <= a <= blocks && b <= m * stripes
    }

    /** The logical offset of data shard `i` of stripe `s`. */
    function DataOffset(i: nat, s: nat): nat {
      i * stripes + s
    }

    /** The parity block that holds parity shard `j` of stripe `s`. */
    function ParityBlock(j: nat, s: nat): nat {
      j * stripes + s
    }

    /** Whether the burst takes shard `p` of stripe `s`; data shards past the last block are zero and known. */
    predicate Loses(p: nat, s: nat) {
      if p < k then blocks - a <= DataOffset(p, s) < blocks else ParityBlock(p - k, s) < b
    }

    function Lost(s: nat): set<nat> {
      set p | p in Range(k + m) && Loses(p, s)
    }

    ghost function Kept(s: nat): set<nat> {
      Range(k + m) - Lost(s)
    }

    /** Every stripe can still be decoded. */
    ghost predicate Recoverable(n: nat)
      requires Valid()
    {
      forall s :: 0 <= s < stripes ==> Determines(k, m, n, Kept(s))
    }

    /** The records in the burst: data blocks, the filemark, h primary index blocks, parity blocks. */
    function Span(h: nat): nat {
      a + 1 + h + b
    }

    /** The lowest stripe among those that lose the most data shards. */
    function FirstHit(): nat
      requires stripes >= 1
    {
      LowestHit(Rem(a, stripes), Rem(blocks, stripes), stripes)
    }

    /** The number of leading parity blocks that can be lost besides the `a` data blocks. */
    function Tolerance(): int
      requires stripes >= 1
    {
      (m - Quo(a, stripes) - 1) * stripes + FirstHit()
    }
  }

  /** The lowest residue of the last t numbers below a multiple of `step` plus e; `step` if there are none. */
  function LowestHit(t: nat, e: nat, step: nat): nat
    requires t < step && e < step
  {
    if t == 0 then step
    else if t <= e then e - t
    else if e > 0 then 0
    else step - t
  }

  // ----- counting the blocks of one stripe in a prefix

  /** The number of i with i * step + s < n. */
  function Hits(n: int, s: nat, step: nat): nat
    requires step >= 1
    decreases if n < 0 then 0 else n
  {
    if n <= s then 0 else 1 + Hits(n - step, s, step)
  }

  lemma {:induction false} HitsValue(u: nat, e: nat, s: nat, step: nat)
    requires s < step && e <= step
    ensures Hits(u * step + e, s, step) == u + (if s < e then 1 else 0)
    decreases u
  {
    if u > 0 {
      assert u * step + e == (u - 1) * step + e + step;
      HitsValue(u - 1, e, s, step);
    }
  }

  lemma {:induction false} BelowHits(n: int, s: nat, step: nat, i: nat)
    requires step >= 1
    ensures i < Hits(n, s, step) <==> i * step + s < n
    decreases i
  {
    if i > 0 {
      BelowHits(n - step, s, step, i - 1);
      assert i * step == (i - 1) * step + step;
    }
  }

  lemma LosesIff(x: Burst, s: nat, p: nat)
    requires x.Valid() && s < x.stripes
    ensures x.Loses(p, s) <==>
      if p < x.k then Hits(x.blocks - x.a, s, x.stripes) <= p < Hits(x.blocks, s, x.stripes)
      else p < x.k + Hits(x.b, s, x.stripes)
  {
    if p < x.k {
      BelowHits(x.blocks, s, x.stripes, p);
      BelowHits(x.blocks - x.a, s, x.stripes, p);
    } else {
      BelowHits(x.b, s, x.stripes, p - x.k);
    }
  }

  lemma HitsInRange(x: Burst, s: nat)
    requires x.Valid() && s < x.stripes
    ensures Hits(x.blocks - x.a, s, x.stripes) <= Hits(x.blocks, s, x.stripes) <= x.k
    ensures Hits(x.b, s, x.stripes) <= x.m
  {
    hide Hits;
    BelowHits(x.blocks, s, x.stripes, Hits(x.blocks, s, x.stripes));
    BelowHits(x.blocks - x.a, s, x.stripes, Hits(x.blocks, s, x.stripes));
    BelowHits(x.blocks, s, x.stripes, x.k);
    BelowHits(x.b, s, x.stripes, x.m);
  }

  function Interval(lo: nat, hi: nat): (r: set<nat>)
    requires lo <= hi
    ensures |r| == hi - lo
    ensures forall i :: i in r <==> lo <= i < hi
  {
    assert Range(lo) <= Range(hi);
    Range(hi) - Range(lo)
  }

  /** The data shards of stripe `s` in the burst are its last ones, the parity shards its first ones. */
  lemma LostMember(x: Burst, s: nat, p: nat)
    requires x.Valid() && s < x.stripes
    ensures p in x.Lost(s) <==>
      || Hits(x.blocks - x.a, s, x.stripes) <= p < Hits(x.blocks, s, x.stripes)
      || x.k <= p < x.k + Hits(x.b, s, x.stripes)
  {
    hide Hits, x.Loses, x.Valid;
    HitsInRange(x, s);
    LosesIff(x, s, p);
  }

  lemma LostCount(x: Burst, s: nat)
    requires x.Valid() && s < x.stripes
    ensures |x.Lost(s)| == Hits(x.blocks, s, x.stripes) - Hits(x.blocks - x.a, s, x.stripes) + Hits(x.b, s, x.stripes)
  {
    hide Hits, x.Lost, x.Valid, Interval;
    HitsInRange(x, s);
    var data := Interval(Hits(x.blocks - x.a, s, x.stripes), Hits(x.blocks, s, x.stripes));
    var parity := Interval(x.k, x.k + Hits(x.b, s, x.stripes));
    forall p: nat ensures p in x.Lost(s) <==> p in data + parity {
      LostMember(x, s, p);
    }
    assert x.Lost(s) == data + parity && data !! parity;
  }

  // ----- the exact threshold

  /** The data shards that stripe `s` loses, from quotients and remainders alone. */
  function DataLoss(q: nat, t: nat, e: nat, step: nat, s: nat): nat {
    if t <= e then q + (if e - t <= s < e then 1 else 0)
    else q + (if s < e || step + e - t <= s then 1 else 0)
  }

  /** All the shards that stripe `s` loses. */
  function Loss(q: nat, t: nat, e: nat, v: nat, w: nat, step: nat, s: nat): nat {
    DataLoss(q, t, e, step, s) + v + (if s < w then 1 else 0)
  }

  lemma DataLossByHits(q: nat, t: nat, u: nat, e: nat, step: nat, a: nat, n: nat, s: nat)
    requires s < step && t < step && e < step && a == q * step + t && n == u * step + e && a <= n
    ensures Hits(n, s, step) - Hits(n - a, s, step) == DataLoss(q, t, e, step, s)
  {
    hide Hits;
    HitsValue(u, e, s, step);
    RemainingBlocks(q, t, u, e, step, a, n);
    if t <= e {
      HitsValue(u - q, e - t, s, step);
    } else {
      HitsValue(u - q - 1, step + e - t, s, step);
    }
  }

  lemma LossByHits(x: Burst, s: nat)
    requires x.Valid() && s < x.stripes
    ensures |x.Lost(s)| == Loss(Quo(x.a, x.stripes), Rem(x.a, x.stripes), Rem(x.blocks, x.stripes),
                                Quo(x.b, x.stripes), Rem(x.b, x.stripes), x.stripes, s)
  {
    hide Hits, DataLoss, x.Lost, Quo, Rem;
    var step := x.stripes;
    LostCount(x, s);
    QuoRem(x.a, step);
    QuoRem(x.blocks, step);
    QuoRem(x.b, step);
    DataLossByHits(Quo(x.a, step), Rem(x.a, step), Quo(x.blocks, step), Rem(x.blocks, step), step, x.a, x.blocks, s);
    HitsValue(Quo(x.b, step), Rem(x.b, step), s, step);
  }

  lemma RemainingBlocks(q: nat, t: nat, u: nat, e: nat, step: nat, a: nat, n: nat)
    requires t < step && e < step && a == q * step + t && n == u * step + e && a <= n
    ensures t <= e ==> u >= q && n - a == (u - q) * step + (e - t)
    ensures t > e ==> u > q && n - a == (u - q - 1) * step + (step + e - t)
  {
    if u < q {
      MulMonotone(u + 1, q, step);
      Subtract(u + 1, 1, step);
    }
    Subtract(u, q, step);
    Subtract(u - q, 1, step);
  }

  /** Comparing v * step + w with c * step + f, digit by digit. */
  lemma Compare(v: int, w: nat, c: int, f: nat, step: nat)
    requires w < step && f <= step
    ensures v * step + w <= c * step + f <==> v < c || (v == c && w <= f) || (v == c + 1 && w == 0 && f == step)
  {
    Subtract(c, v, step);
    if c - v >= 1 {
      MulMonotone(1, c - v, step);
    } else if c - v <= -2 {
      MulMonotone(c - v, -2, step);
    }
  }

  /** The stripes in order of data loss: `first` is the lowest that loses q + 1 data shards. */
  lemma WorstStripe(q: nat, t: nat, e: nat, step: nat, first: nat)
    requires t < step && e < step && first == LowestHit(t, e, step)
    ensures first <= step
    ensures first < step ==> DataLoss(q, t, e, step, first) == q + 1
    ensures forall s :: 0 <= s < first ==> DataLoss(q, t, e, step, s) == q
    ensures forall s :: first <= s < step ==> DataLoss(q, t, e, step, s) <= q + 1
  {
  }

  /** Losses stay within m, exactly when v * step + w is at most (m - q - 1) * step + first. */
  lemma LossWithin(m: nat, q: nat, t: nat, e: nat, v: nat, w: nat, step: nat, first: nat)
    requires t < step && e < step && w < step && first == LowestHit(t, e, step)
    ensures (forall s :: 0 <= s < step ==> Loss(q, t, e, v, w, step, s) <= m)
        <==> v * step + w <= (m - q - 1) * step + first
  {
    hide DataLoss, LowestHit;
    WorstStripe(q, t, e, step, first);
    Compare(v, w, m - q - 1, first, step);
    if v * step + w > (m - q - 1) * step + first {
      var worst := if first == step then 0 else first;
      assert Loss(q, t, e, v, w, step, worst) > m;
    }
  }

  /** No stripe loses more than m shards, exactly when b is within the tolerance. */
  lemma ToleratedIff(x: Burst)
    requires x.Valid()
    ensures (forall s :: 0 <= s < x.stripes ==> |x.Lost(s)| <= x.m) <==> x.b <= x.Tolerance()
  {
    hide x.Lost, Loss, LowestHit, Quo, Rem;
    var step := x.stripes;
    var q, t, e, v, w := Quo(x.a, step), Rem(x.a, step), Rem(x.blocks, step), Quo(x.b, step), Rem(x.b, step);
    QuoRem(x.b, step);
    LossWithin(x.m, q, t, e, v, w, step, x.FirstHit());
    forall s | 0 <= s < step ensures |x.Lost(s)| == Loss(q, t, e, v, w, step, s) {
      LossByHits(x, s);
    }
  }

  /** Every stripe can be decoded, exactly when b is within the tolerance. */
  lemma BurstRecoverableIff(x: Burst, n: nat)
    requires x.Valid() && n > 0
    ensures x.Recoverable(n) <==> x.b <= x.Tolerance()
  {
    hide Determines, x.Tolerance;
    ToleratedIff(x);
    forall s | 0 <= s < x.stripes
      ensures Determines(x.k, x.m, n, x.Kept(s)) <==> |x.Lost(s)| <= x.m
    {
      assert x.Lost(s) <= Range(x.k + x.m);
      RecoverableIffKShards(x.k, x.m, n, x.Kept(s));
    }
  }

  /** Full rows of data: a burst is survived up to m * S + H + 1 records. */
  lemma AlignedEpoch(x: Burst, n: nat, h: nat)
    requires x.Valid() && n > 0 && Rem(x.blocks, x.stripes) == 0
    ensures x.Recoverable(n) <==> x.Span(h) <= x.m * x.stripes + h + 1
  {
    hide x.Recoverable, Quo, Rem;
    var step, q := x.stripes, Quo(x.a, x.stripes);
    BurstRecoverableIff(x, n);
    QuoRem(x.a, step);
    Subtract(x.m - q, 1, step);
    Subtract(x.m, q, step);
  }

  /** Less than one row of data: the limit falls to (m - 1) * S + R + H + 1 records. */
  lemma ShortEpoch(x: Burst, n: nat, h: nat)
    requires x.Valid() && n > 0 && x.blocks < x.stripes
    ensures x.Recoverable(n) <==> x.Span(h) <= (x.m - 1) * x.stripes + x.blocks + h + 1
  {
    hide x.Recoverable, Quo, Rem;
    BurstRecoverableIff(x, n);
    Small(x.a, x.stripes);
    Small(x.blocks, x.stripes);
  }

  lemma Small(n: nat, step: nat)
    requires n < step
    ensures Quo(n, step) == 0 && Rem(n, step) == n
  {
  }

  /** One record past the limit costs some stripe exactly m + 1 shards. */
  lemma OneRecordTooMany(x: Burst) returns (s: nat)
    requires x.Valid() && x.b == x.Tolerance() + 1
    ensures s < x.stripes && |x.Lost(s)| == x.m + 1
  {
    hide x.Lost, LowestHit, DataLoss, Quo, Rem;
    var step, first := x.stripes, x.FirstHit();
    var q, t, e, v, w := Quo(x.a, step), Rem(x.a, step), Rem(x.blocks, step), Quo(x.b, step), Rem(x.b, step);
    s := if first == step then 0 else first;
    WorstStripe(q, t, e, step, first);
    LossByHits(x, s);
    QuoRem(x.b, step);
    NextRecord(v, w, x.m - q - 1, first, step);
  }

  /** The digits of the number one past c * step + f. */
  lemma NextRecord(v: int, w: nat, c: int, f: nat, step: nat)
    requires w < step && f <= step && v * step + w == c * step + f + 1
    ensures f < step ==> (v == c && w == f + 1) || (v == c + 1 && w == 0 && f + 1 == step)
    ensures f == step ==> (v == c + 1 && w == 1) || (v == c + 2 && w == 0 && step == 1)
  {
    Subtract(c + 1, -1, step);
    Subtract(c, -1, step);
    if f + 1 < step {
      SameDigits(v, w, c, f + 1, step);
    } else if f + 1 == step {
      SameDigits(v, w, c + 1, 0, step);
    } else if step > 1 {
      SameDigits(v, w, c + 1, 1, step);
    } else {
      SameDigits(v, w, c + 2, 0, step);
    }
  }

  lemma SameDigits(v: int, w: nat, c: int, g: nat, step: nat)
    requires w < step && g < step && v * step + w == c * step + g
    ensures v == c && w == g
  {
    Subtract(v, c, step);
    if v > c {
      MulMonotone(1, v - c, step);
    } else if v < c {
      MulMonotone(v - c, -1, step);
    }
  }
}
