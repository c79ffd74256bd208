/**
  The systematic erasure code: m parity shards, each a Cauchy-weighted sum of the
  k data shards, byte position by byte position.
 */
module ParityCode {
  import opened Bits
  import opened Outcomes
  import opened Gf256
  import opened Gf256Inverse
  import opened Cauchy

  predicate ValidScheme(k: int, m: int) {
    k >= 2 && 1 <= m <= k && k + m <= 255
  }

  /** Row j, column i holds 1 / (X_j + Y_i) with X_j = k + j and Y_i = i. */
  function CauchyMatrix(k: int, m: int): (r: Option<seq<seq<byte>>>)
    ensures r.Some? <==> k >= 2 && 1 <= m <= k && k + m <= 255
    ensures r.Some? ==> |r.value| == m && forall j :: 0 <= j < m ==> r.value[j] == CauchyRow(k, k + j)
  {
    if !ValidScheme(k, m) then None
    else Some(seq(m, j requires 0 <= j < m => CauchyRow(k, k + j)))
  }

  function CauchyRow(k: nat, x: byte): (row: seq<byte>)
    requires k <= 255
    ensures |row| == k
  {
    seq(k, i requires 0 <= i < k => Entry(x, i))
  }

  /** k shards of n bytes each. */
  predicate DataSet(data: seq<seq<byte>>, k: nat, n: nat) {
    |data| == k && forall i :: 0 <= i < k ==> |data[i]| == n
  }

  /** The sum over i < c of row[i] * data[i][offset]. */
  function Combine(row: seq<byte>, data: seq<seq<byte>>, offset: nat, c: nat): byte
    requires c <= |row| && c <= |data|
    requires forall i :: 0 <= i < c ==> offset < |data[i]|
    decreases c
  {
    if c == 0 then 0
    else XorByte(Combine(row, data, offset, c - 1), Mul(row[c - 1], data[c - 1][offset]))
  }

  /** One parity shard. */
  function ParityShard(row: seq<byte>, data: seq<seq<byte>>, n: nat): (shard: seq<byte>)
    requires DataSet(data, |row|, n)
    ensures |shard| == n
  {
    seq(n, o requires 0 <= o < n => Combine(row, data, o, |row|))
  }

  /** All k + m shards of a stripe, data first. */
  function Stripe(k: nat, m: nat, n: nat, data: seq<seq<byte>>): (shards: seq<seq<byte>>)
    requires ValidScheme(k, m) && DataSet(data, k, n)
    ensures |shards| == k + m
  {
    data + seq(m, j requires 0 <= j < m => ParityShard(CauchyRow(k, k + j), data, n))
  }

  // ----- the encoder

  function MultiplicationTable(coefficient: byte): (table: seq<byte>)
    ensures |table| == 256
  {
    seq(256, v requires 0 <= v < 256 => Mul(coefficient, v))
  }

  predicate Encodable(data: seq<seq<byte>>, matrix: seq<seq<byte>>) {
    && |data| >= 2 && |data[0]| > 0
    && DataSet(data, |data|, |data[0]|)
    && forall j :: 0 <= j < |matrix| ==> |matrix[j]| == |data|
  }

  /** `encode_parity`: accumulates translated shards into one buffer for each row. */
  method EncodeParity(data: seq<seq<byte>>, matrix: Option<seq<seq<byte>>>)
    returns (r: Option<seq<seq<byte>>>)
    ensures r.Some? <==> matrix.Some? && Encodable(data, matrix.value)
    ensures r.Some? ==> |r.value| == |matrix.value|
    ensures r.Some? ==> forall j :: 0 <= j < |r.value| ==>
      r.value[j] == ParityShard(matrix.value[j], data, |data[0]|)
  {
    if matrix.None? || !Encodable(data, matrix.value) {
      return None;
    }
    hide Mul, Xor, XorByte;
    var n := |data[0]|;
    var parity: seq<seq<byte>> := [];
    for j := 0 to |matrix.value|
      invariant |parity| == j
      invariant forall i :: 0 <= i < j ==> parity[i] == ParityShard(matrix.value[i], data, n)
    {
      var row := matrix.value[j];
      var accumulator := new byte[n](_ => 0);
      for c := 0 to |data|
        invariant forall o :: 0 <= o < n ==> accumulator[o] == Combine(row, data, o, c)
      {
        var table := MultiplicationTable(row[c]);
        for offset := 0 to n
          invariant forall o :: 0 <= o < offset ==> accumulator[o] == Combine(row, data, o, c + 1)
          invariant forall o :: offset <= o < n ==> accumulator[o] == Combine(row, data, o, c)
        {
          accumulator[offset] := XorByte(accumulator[offset], table[data[c][offset]]);
        }
      }
      assert accumulator[..] == ParityShard(row, data, n);
      parity := parity + [accumulator[..]];
    }
    return Some(parity);
  }

  /** Entry (j, i) inverts the sum of the seeds k + j and i, which never meet. */
  lemma MatrixInvertsSeeds(k: nat, m: nat, j: nat, i: nat)
    requires ValidScheme(k, m) && j < m && i < k
    ensures CauchyMatrix(k, m).Some? && |CauchyMatrix(k, m).value| == m && |CauchyMatrix(k, m).value[j]| == k
    ensures Mul(XorByte(k + j, i), CauchyMatrix(k, m).value[j][i]) == 1
  {
    hide Mul, Inv, Xor;
    assert CauchyMatrix(k, m).value[j] == CauchyRow(k, k + j);
    XorCancel(k + j, i);
    Inverse(XorByte(k + j, i));
  }

  /** A stripe as the tools compute it: the data, then their parity under the derived matrix. */
  method EncodeStripe(k: int, m: int, data: seq<seq<byte>>) returns (r: Option<seq<seq<byte>>>)
    ensures r.Some? <==> ValidScheme(k, m) && |data| > 0 && |data[0]| > 0 && DataSet(data, k, |data[0]|)
    ensures r.Some? ==> r.value == Stripe(k, m, |data[0]|, data)
  {
    hide ParityShard;
    var matrix := CauchyMatrix(k, m);
    if matrix.None? || |data| != k {
      return None;
    }
    assert forall j :: 0 <= j < m ==> |matrix.value[j]| == k;
    assert DataSet(data, k, |data[0]|) && |data[0]| > 0 ==> Encodable(data, matrix.value);
    var parity := EncodeParity(data, matrix);
    if parity.None? {
      return None;
    }
    r := Some(data + parity.value);
    assert r.value == Stripe(k, m, |data[0]|, data);
  }

  // ----- what the parity is

  /** Where every shard but `i` is zero, the sum is the one product. */
  lemma {:induction false} CombineOfOne(row: seq<byte>, data: seq<seq<byte>>, offset: nat, c: nat, i: nat)
    requires i < c <= |row| && c <= |data|
    requires forall j :: 0 <= j < c ==> offset < |data[j]| && (j != i ==> data[j][offset] == 0)
    ensures Combine(row, data, offset, c) == Mul(row[i], data[i][offset])
    decreases c
  {
    hide Mul, XorByte;
    ZeroAnnihilates(row[c - 1]);
    if i == c - 1 {
      CombineOfZeros(row, data, offset, i);
      AddZero(Mul(row[i], data[i][offset]));
    } else {
      CombineOfOne(row, data, offset, c - 1, i);
      AddZero(Mul(row[i], data[i][offset]));
    }
  }

  lemma {:induction false} CombineOfZeros(row: seq<byte>, data: seq<seq<byte>>, offset: nat, c: nat)
    requires c <= |row| && c <= |data|
    requires forall j :: 0 <= j < c ==> offset < |data[j]| && data[j][offset] == 0
    ensures Combine(row, data, offset, c) == 0
    decreases c
  {
    hide Mul, XorByte;
    if c > 0 {
      CombineOfZeros(row, data, offset, c - 1);
      ZeroAnnihilates(row[c - 1]);
        AddZero(0);
    }
  }

  /** The byte-wise sum of two shards. */
  function ShardSum(a: seq<byte>, b: seq<byte>): (s: seq<byte>)
    requires |a| == |b|
    ensures |s| == |a|
  {
    seq(|a|, o requires 0 <= o < |a| => XorByte(a[o], b[o]))
  }

  function DataSum(a: seq<seq<byte>>, b: seq<seq<byte>>, k: nat, n: nat): (s: seq<seq<byte>>)
    requires DataSet(a, k, n) && DataSet(b, k, n)
    ensures DataSet(s, k, n)
  {
    seq(k, i requires 0 <= i < k => ShardSum(a[i], b[i]))
  }

  lemma {:induction false} CombineIsLinear(row: seq<byte>, a: seq<seq<byte>>, b: seq<seq<byte>>, n: nat, offset: nat,
      c: nat)
    requires DataSet(a, |row|, n) && DataSet(b, |row|, n) && offset < n && c <= |row|
    ensures Combine(row, DataSum(a, b, |row|, n), offset, c)
         == XorByte(Combine(row, a, offset, c), Combine(row, b, offset, c))
    decreases c
  {
    hide Mul, Xor;
    XorZero(0);
    if c > 0 {
      CombineIsLinear(row, a, b, n, offset, c - 1);
      var i := c - 1;
      var p, q, w := a[i][offset], b[i][offset], row[i];
      XorExchange(Combine(row, a, offset, i), Mul(w, p), Combine(row, b, offset, i), Mul(w, q));
      DistributesRight(w, p, q);
    }
  }

  /** The parity of a sum is the sum of the parities. */
  lemma ParityIsLinear(row: seq<byte>, a: seq<seq<byte>>, b: seq<seq<byte>>, n: nat)
    requires DataSet(a, |row|, n) && DataSet(b, |row|, n)
    ensures ParityShard(row, DataSum(a, b, |row|, n), n) == ShardSum(ParityShard(row, a, n), ParityShard(row, b, n))
  {
    hide Combine, XorByte;
    forall o | 0 <= o < n
      ensures Combine(row, DataSum(a, b, |row|, n), o, |row|)
           == XorByte(Combine(row, a, o, |row|), Combine(row, b, o, |row|))
    {
      CombineIsLinear(row, a, b, n, o, |row|);
    }
  }

  /**
   A stripe holds its data as they are. Where only data shard `i` is nonzero, parity shard `j` times the sum of the
   seeds k + j and i is that shard. With linearity this fixes every parity byte of every stripe.
   */
  lemma StripeOfOne(k: nat, m: nat, n: nat, data: seq<seq<byte>>, i: nat, j: nat, offset: nat)
    requires ValidScheme(k, m) && DataSet(data, k, n) && i < k && j < m && offset < n
    ensures
      var shards := Stripe(k, m, n, data);
      && shards[..k] == data && |shards[k + j]| == n
      && ((forall l :: 0 <= l < k && l != i ==> data[l][offset] == 0) ==>
          Mul(XorByte(k + j, i), shards[k + j][offset]) == data[i][offset])
  {
    hide Mul, Xor, Combine;
    var row, v := CauchyRow(k, k + j), data[i][offset];
    var shards := Stripe(k, m, n, data);
    assert shards[k + j] == ParityShard(row, data, n);
    if forall l :: 0 <= l < k && l != i ==> data[l][offset] == 0 {
      CombineOfOne(row, data, offset, k, i);
      MatrixInvertsSeeds(k, m, j, i);
      Associative(XorByte(k + j, i), row[i], v);
      OneIsNeutral(v);
    }
  }

  // ----- two data sets that agree on some shards

  /** The byte-wise difference of two data sets at one offset. */
  function Difference(a: seq<seq<byte>>, b: seq<seq<byte>>, k: nat, n: nat, offset: nat): (d: seq<byte>)
    requires DataSet(a, k, n) && DataSet(b, k, n) && offset < n
    ensures |d| == k
  {
    seq(k, i requires 0 <= i < k => XorByte(a[i][offset], b[i][offset]))
  }

  /** Parity shards agree at an offset exactly when the difference satisfies their row. */
  lemma {:induction false} CombineDifference(a: seq<seq<byte>>, b: seq<seq<byte>>, k: nat, n: nat, offset: nat,
      x: byte, c: nat)
    requires DataSet(a, k, n) && DataSet(b, k, n) && offset < n && c <= k <= 255
    ensures XorByte(Combine(CauchyRow(k, x), a, offset, c), Combine(CauchyRow(k, x), b, offset, c))
         == Syndrome(Difference(a, b, k, n, offset), x, c)
    decreases c
  {
    hide Mul, Entry;
    XorZero(0);
    if c > 0 {
      CombineDifference(a, b, k, n, offset, x, c - 1);
      var row := CauchyRow(k, x);
      var i := c - 1;
      var p, q, w := a[i][offset], b[i][offset], row[i];
      XorExchange(Combine(row, a, offset, i), Mul(w, p), Combine(row, b, offset, i), Mul(w, q));
      DistributesRight(w, p, q);
      Commutative(w, XorByte(p, q));
    }
  }

  ghost predicate AgreeOn(k: nat, m: nat, n: nat, a: seq<seq<byte>>, b: seq<seq<byte>>, kept: set<nat>)
    requires ValidScheme(k, m) && DataSet(a, k, n) && DataSet(b, k, n)
  {
    forall s :: s in kept && s < k + m ==> Stripe(k, m, n, a)[s] == Stripe(k, m, n, b)[s]
  }

  /** The kept shards fix the data: no two data sets share all of them. */
  ghost predicate Determines(k: nat, m: nat, n: nat, kept: set<nat>)
    requires ValidScheme(k, m)
  {
    forall a, b :: DataSet(a, k, n) && DataSet(b, k, n) && AgreeOn(k, m, n, a, b, kept) ==> a == b
  }

  /** Data indices that were lost, and parity rows that were kept. */
  function LostData(k: nat, kept: set<nat>): set<nat> {
    set i | 0 <= i < k && i !in kept
  }

  function KeptRows(k: nat, m: nat, kept: set<nat>): set<byte>
    requires ValidScheme(k, m)
  {
    set x: byte | x in kept && k <= x < k + m
  }

  /** The indices below k. */
  function Range(k: nat): (r: set<nat>)
    ensures |r| == k
    ensures forall i :: i in r <==> 0 <= i < k
  {
    if k == 0 then {} else Range(k - 1) + {k - 1}
  }

  lemma Counting(k: nat, m: nat, kept: set<nat>)
    requires ValidScheme(k, m) && forall s :: s in kept ==> s < k + m
    ensures |LostData(k, kept)| + |kept| == k + |KeptRows(k, m, kept)|
  {
    var data := Range(k);
    var lost, rows := LostData(k, kept), KeptRows(k, m, kept);
    var keptData := kept * data;
    assert data == lost + keptData;
    assert lost !! keptData;
    var rest: set<nat> := rows;
    assert kept == keptData + rest;
    assert keptData !! rest;
  }

  lemma KeptRowsSolved(k: nat, m: nat, n: nat, a: seq<seq<byte>>, b: seq<seq<byte>>, kept: set<nat>, offset: nat)
    requires ValidScheme(k, m) && DataSet(a, k, n) && DataSet(b, k, n) && offset < n
    requires AgreeOn(k, m, n, a, b, kept)
    ensures Solves(Difference(a, b, k, n, offset), KeptRows(k, m, kept))
    ensures Supported(Difference(a, b, k, n, offset), LostData(k, kept))
  {
    hide Syndrome, Combine, CauchyRow;
    forall x | x in KeptRows(k, m, kept)
      ensures Syndrome(Difference(a, b, k, n, offset), x, k) == 0
    {
      CombineDifference(a, b, k, n, offset, x, k);
      assert Stripe(k, m, n, a)[x] == Stripe(k, m, n, b)[x];
      assert ParityShard(CauchyRow(k, x), a, n)[offset] == ParityShard(CauchyRow(k, x), b, n)[offset];
      XorSelf(Combine(CauchyRow(k, x), a, offset, k));
    }
    forall i | 0 <= i < k && i !in LostData(k, kept)
      ensures Difference(a, b, k, n, offset)[i] == 0
    {
      assert Stripe(k, m, n, a)[i] == Stripe(k, m, n, b)[i];
      XorSelf(a[i][offset]);
    }
  }

  /** Any k of the k + m shards determine the data. */
  lemma EnoughShards(k: nat, m: nat, n: nat, kept: set<nat>)
    requires ValidScheme(k, m) && forall s :: s in kept ==> s < k + m
    requires |kept| >= k
    ensures Determines(k, m, n, kept)
  {
    hide AgreeOn, Solves, Supported;
    forall a, b | DataSet(a, k, n) && DataSet(b, k, n) && AgreeOn(k, m, n, a, b, kept)
      ensures a == b
    {
      Counting(k, m, kept);
      forall i, o | 0 <= i < k && 0 <= o < n
        ensures a[i][o] == b[i][o]
      {
        var d := Difference(a, b, k, n, o);
        KeptRowsSolved(k, m, n, a, b, kept, o);
        Nonsingular(d, LostData(k, kept), KeptRows(k, m, kept));
        assert d[i] == 0;
        XorCancel(a[i][o], b[i][o]);
      }
      assert forall i :: 0 <= i < k ==> a[i] == b[i];
    }
  }

  /** The data set whose every column is `d`. */
  function Columns(d: seq<byte>, n: nat): (data: seq<seq<byte>>)
    ensures DataSet(data, |d|, n)
  {
    seq(|d|, i requires 0 <= i < |d| => seq(n, _ => d[i]))
  }

  lemma SameParity(d: seq<byte>, zero: seq<byte>, k: nat, n: nat, x: byte)
    requires |d| == |zero| == k <= 255 && Zero(zero) && Syndrome(d, x, k) == 0
    ensures ParityShard(CauchyRow(k, x), Columns(d, n), n) == ParityShard(CauchyRow(k, x), Columns(zero, n), n)
  {
    hide Syndrome, Combine, CauchyRow;
    var a, b, row := Columns(d, n), Columns(zero, n), CauchyRow(k, x);
    forall o | 0 <= o < n
      ensures Combine(row, a, o, k) == Combine(row, b, o, k)
    {
      CombineDifference(a, b, k, n, o, x, k);
      forall i | 0 <= i < k ensures Difference(a, b, k, n, o)[i] == d[i] {
        XorZero(d[i]);
      }
      assert Difference(a, b, k, n, o) == d;
      XorCancel(Combine(row, a, o, k), Combine(row, b, o, k));
    }
  }

  lemma ColumnsAgree(d: seq<byte>, zero: seq<byte>, k: nat, m: nat, n: nat, kept: set<nat>)
    requires ValidScheme(k, m) && |d| == |zero| == k && Zero(zero)
    requires Supported(d, LostData(k, kept)) && Solves(d, KeptRows(k, m, kept))
    ensures AgreeOn(k, m, n, Columns(d, n), Columns(zero, n), kept)
  {
    hide Syndrome, ParityShard, CauchyRow;
    var a, b := Columns(d, n), Columns(zero, n);
    forall s | s in kept && s < k + m
      ensures Stripe(k, m, n, a)[s] == Stripe(k, m, n, b)[s]
    {
      if s < k {
        assert a[s] == b[s];
      } else {
        assert s in KeptRows(k, m, kept);
        SameParity(d, zero, k, n, s);
      }
    }
  }

  /** Any fewer leave two data sets with the same surviving shards. */
  lemma TooFewShards(k: nat, m: nat, n: nat, kept: set<nat>)
    requires ValidScheme(k, m) && forall s :: s in kept ==> s < k + m
    requires |kept| < k && n > 0
    ensures !Determines(k, m, n, kept)
  {
    hide AgreeOn, Solves, Supported;
    Counting(k, m, kept);
    var d := Singular(k, LostData(k, kept), KeptRows(k, m, kept));
    var zero: seq<byte> := seq(k, _ => 0);
    var a, b := Columns(d, n), Columns(zero, n);
    ColumnsAgree(d, zero, k, m, n, kept);
    var i :| 0 <= i < k && d[i] != 0;
    assert a[i][0] == d[i] && b[i][0] == 0;
  }

  /** The recovery threshold is exact: k shards suffice, whichever they are, and k - 1 never do. */
  lemma RecoverableIffKShards(k: nat, m: nat, n: nat, kept: set<nat>)
    requires ValidScheme(k, m) && n > 0 && forall s :: s in kept ==> s < k + m
    ensures Determines(k, m, n, kept) <==> |kept| >= k
  {
    if |kept| >= k {
      EnoughShards(k, m, n, kept);
    } else {
      TooFewShards(k, m, n, kept);
    }
  }
}
