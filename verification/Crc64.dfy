/**
  CRC-64/XZ: the table-driven and the bit-by-bit forms, both proved against one
  definition, and the burst-detection guarantee that the parameters give.

  A remainder is fed one byte by adding the byte and taking eight single-bit steps.
  The single-bit step is additive, which is what lets a byte be looked up in a table.
 */
module Crc64 {
  import opened Bits
  import opened ByteStrings

  const POLYNOMIAL: nat := 0xC96C5795D7870F42
  const MASK64: nat := 0xFFFF_FFFF_FFFF_FFFF

  /** One reflected single-bit step. */
  function Step(r: nat): nat {
    Xor(r / 2, if r % 2 == 0 then 0 else POLYNOMIAL)
  }

  function Steps(r: nat, n: nat): nat
    decreases n
  {
    if n == 0 then r else Steps(Step(r), n - 1)
  }

  /** The remainder after feeding `data` into remainder `r`. */
  function Feed(r: nat, data: seq<byte>): nat {
    if |data| == 0 then r else Steps(Xor(Feed(r, data[..|data| - 1]), data[|data| - 1]), 8)
  }

  function Crc(data: seq<byte>): nat {
    Xor(Feed(MASK64, data), MASK64)
  }

  // ----- additivity of the step

  lemma StepXor(a: nat, b: nat)
    ensures Step(Xor(a, b)) == Xor(Step(a), Step(b))
  {
    hide Xor;
    XorStep(a, b);
    var p := if a % 2 == 0 then 0 else POLYNOMIAL;
    var q := if b % 2 == 0 then 0 else POLYNOMIAL;
    XorExchange(a / 2, p, b / 2, q);
    XorZero(POLYNOMIAL);
    XorZero(0);
    XorSelf(POLYNOMIAL);
  }

  lemma {:induction false} StepsXor(a: nat, b: nat, n: nat)
    ensures Steps(Xor(a, b), n) == Xor(Steps(a, n), Steps(b, n))
    decreases n
  {
    hide Xor, Step;
    if n > 0 {
      StepXor(a, b);
      StepsXor(Step(a), Step(b), n - 1);
    }
  }

  /** Bits shifted above the steps taken come back down unchanged. */
  lemma {:induction false} StepsOfShift(h: nat, n: nat)
    ensures Steps(Shift(h, n), n) == h
    decreases n
  {
    hide Xor;
    if n > 0 {
      StepOfDouble(Shift(h, n - 1));
      StepsOfShift(h, n - 1);
    }
  }

  lemma StepOfDouble(v: nat)
    ensures Step(2 * v) == v
  {
    hide Xor;
    XorZero(v);
  }

  lemma {:induction false} StepsAdd(r: nat, n: nat, k: nat)
    ensures Steps(r, n + k) == Steps(Steps(r, n), k)
    decreases n
  {
    if n > 0 {
      StepsAdd(Step(r), n - 1, k);
    }
  }

  // ----- the table

  /** Eight steps of a byte. */
  function TableEntry(value: byte): nat {
    Steps(value, 8)
  }

  lemma Shift8(h: nat)
    ensures Shift(h, 8) == 256 * h && Halve(h, 8) == h / 256 && Pow2(8) == 256
  {
  }

  /** One table look-up does the work of eight single-bit steps. */
  lemma TableStep(r: nat, value: byte)
    ensures Steps(Xor(r, value), 8) == Xor(TableEntry(Xor(r, value) % 256), r / 256)
  {
    hide Xor, Steps, Shift, Halve;
    var x := Xor(r, value);
    var low, high := x % 256, x / 256;
    Shift8(x);
    Shift8(high);
    XorDisjoint(low, high, 8);
    StepsXor(low, Shift(high, 8), 8);
    StepsOfShift(high, 8);
    HalveXor(r, value, 8);
    Shift8(r);
    Shift8(value);
    XorZero(r / 256);
  }

  /** `_crc64_table_entry`: eight literal bit steps; the final mask never drops a bit. */
  method CrcTableEntry(value: byte) returns (entry: nat)
    ensures entry == TableEntry(value)
  {
    hide Xor;
    var remainder: nat := value;
    for i := 0 to 8
      invariant Steps(remainder, 8 - i) == TableEntry(value)
      invariant remainder <= MASK64
    {
      StepFits(remainder);
      XorZero(remainder / 2);
      remainder := if remainder % 2 == 1 then Xor(remainder / 2, POLYNOMIAL) else remainder / 2;
    }
    return remainder % (MASK64 + 1);
  }

  /** `CRC64_XZ_TABLE`. */
  method CrcTable() returns (table: seq<nat>)
    ensures |table| == 256 && forall v :: 0 <= v < 256 ==> table[v] == TableEntry(v)
  {
    table := [];
    for v := 0 to 256
      invariant |table| == v && forall u: byte :: 0 <= u < v ==> table[u] == TableEntry(u)
    {
      var entry := CrcTableEntry(v);
      table := table + [entry];
    }
  }

  /** `crc64_xz` of the parity tool: one look-up for each byte. */
  method CrcByTable(data: seq<byte>) returns (crc: nat)
    ensures crc == Crc(data)
  {
    hide Xor, Steps;
    var table := CrcTable();
    var remainder := MASK64;
    for i := 0 to |data|
      invariant remainder == Feed(MASK64, data[..i])
    {
      TableStep(remainder, data[i]);
      assert data[..i + 1][..i] == data[..i];
      remainder := Xor(table[Xor(remainder, data[i]) % 256], remainder / 256);
    }
    assert data[..|data|] == data;
    return Xor(remainder, MASK64);
  }

  /** `crc64_xz` of the terminal-index tool: eight shifts for each byte. */
  method CrcByBit(data: seq<byte>) returns (crc: nat)
    ensures crc == Crc(data)
  {
    hide Xor;
    crc := MASK64;
    for i := 0 to |data|
      invariant crc == Feed(MASK64, data[..i])
    {
      assert data[..i + 1][..i] == data[..i];
      crc := Xor(crc, data[i]);
      for j := 0 to 8
        invariant Steps(crc, 8 - j) == Feed(MASK64, data[..i + 1])
      {
        crc := Xor(crc / 2, if crc % 2 == 1 then POLYNOMIAL else 0);
      }
    }
    assert data[..|data|] == data;
    return Xor(crc, MASK64);
  }

  // ----- burst detection

  lemma Pow2Of64()
    ensures Pow2(64) == MASK64 + 1 && Pow2(63) == 0x8000_0000_0000_0000
  {
    hide Pow2;
    Pow2Steps(63);
    Pow2Add8(0); Pow2Add8(8); Pow2Add8(16); Pow2Add8(24);
    Pow2Add8(32); Pow2Add8(40); Pow2Add8(48); Pow2Add8(56);
  }

  lemma Pow2Steps(n: nat)
    ensures Pow2(0) == 1 && Pow2(n + 1) == 2 * Pow2(n)
  {
  }

  lemma StepFits(r: nat)
    requires r <= MASK64
    ensures Step(r) <= MASK64
    ensures Step(r) == 0 <==> r == 0
  {
    hide Xor, Pow2;
    Pow2Of64();
    XorBound(r / 2, if r % 2 == 0 then 0 else POLYNOMIAL, 64);
    XorCancel(r / 2, if r % 2 == 0 then 0 else POLYNOMIAL);
  }

  lemma {:induction false} StepsFit(r: nat, n: nat)
    requires r <= MASK64
    ensures Steps(r, n) <= MASK64
    decreases n
  {
    hide Step;
    if n > 0 {
      StepFits(r);
      StepsFit(Step(r), n - 1);
    }
  }

  lemma {:induction false} FeedFits(r: nat, data: seq<byte>)
    requires r <= MASK64
    ensures Feed(r, data) <= MASK64
  {
    hide Xor, Pow2, Steps;
    if |data| > 0 {
      var before := Feed(r, data[..|data| - 1]);
      FeedFits(r, data[..|data| - 1]);
      Pow2Of64();
      XorBound(before, data[|data| - 1], 64);
      StepsFit(Xor(before, data[|data| - 1]), 8);
    }
  }

  /** A checksum fits its eight bytes. */
  lemma CrcFits(data: seq<byte>)
    ensures Crc(data) <= MASK64
  {
    hide Xor, Pow2, Feed;
    FeedFits(MASK64, data);
    Pow2Of64();
    XorBound(Feed(MASK64, data), MASK64, 64);
  }

  /** The step loses nothing: only zero steps to zero. */
  lemma {:induction false} StepsNonzero(r: nat, n: nat)
    requires 0 < r <= MASK64
    ensures 0 < Steps(r, n) <= MASK64
    decreases n
  {
    hide Step;
    if n > 0 {
      StepFits(r);
      StepsNonzero(Step(r), n - 1);
    }
  }

  function XorAll(a: seq<byte>, b: seq<byte>): (r: seq<byte>)
    requires |a| == |b|
    ensures |r| == |a|
  {
    seq(|a|, i requires 0 <= i < |a| => XorByte(a[i], b[i]))
  }

  /** Feeding is additive: the difference of two remainders is the remainder of the difference. */
  lemma {:induction false} FeedXor(r: nat, r': nat, a: seq<byte>, b: seq<byte>)
    requires |a| == |b|
    ensures Xor(Feed(r, a), Feed(r', b)) == Feed(Xor(r, r'), XorAll(a, b))
  {
    hide Xor, Steps;
    if |a| > 0 {
      var n := |a| - 1;
      var fa, fb := Feed(r, a[..n]), Feed(r', b[..n]);
      FeedXor(r, r', a[..n], b[..n]);
      assert XorAll(a, b)[..n] == XorAll(a[..n], b[..n]);
      StepsXor(Xor(fa, a[n]), Xor(fb, b[n]), 8);
      XorExchange(fa, a[n], fb, b[n]);
    }
  }

  lemma {:induction false} FeedConcat(r: nat, a: seq<byte>, b: seq<byte>)
    ensures Feed(r, a + b) == Feed(Feed(r, a), b)
    decreases |b|
  {
    hide Xor, Steps;
    if |b| == 0 {
      assert a + b == a;
    } else {
      FeedConcat(r, a, b[..|b| - 1]);
      assert (a + b)[..|a + b| - 1] == a + b[..|b| - 1];
    }
  }

  lemma {:induction false} FeedZeros(r: nat, data: seq<byte>)
    requires r <= MASK64 && forall i :: 0 <= i < |data| ==> data[i] == 0
    ensures Feed(r, data) == 0 <==> r == 0
    ensures Feed(r, data) <= MASK64
  {
    hide Steps;
    if |data| > 0 {
      var before := Feed(r, data[..|data| - 1]);
      FeedZeros(r, data[..|data| - 1]);
      XorZero(before);
      if before == 0 {
        StepsOfZero(8);
      } else {
        StepsNonzero(before, 8);
      }
    }
  }

  lemma {:induction false} StepsOfZero(n: nat)
    ensures Steps(0, n) == 0
  {
    XorZero(0);
    if n > 0 {
      StepsOfZero(n - 1);
    }
  }

  /** Feeding bytes one at a time is feeding them all at once and then stepping. */
  lemma {:induction false} FeedLittle(r: nat, w: seq<byte>)
    ensures Feed(r, w) == Steps(Xor(r, Little(w)), 8 * |w|)
    decreases |w|
  {
    hide Xor, Steps, Shift;
    if |w| == 0 {
      XorZero(r);
      StepsNone(r);
    } else {
      var first, rest := w[0], w[1..];
      var high := Little(rest);
      assert w == [first] + rest;
      FeedConcat(r, [first], rest);
      FeedOne(r, first);
      FeedLittle(Feed(r, [first]), rest);
      Shift8(high);
      XorDisjoint(first, high, 8);
      XorAssociates(r, first, Shift(high, 8));
      StepsXor(Xor(r, first), Shift(high, 8), 8);
      StepsOfShift(high, 8);
      StepsAdd(Xor(r, Little(w)), 8, 8 * |rest|);
    }
  }

  lemma StepsNone(r: nat)
    ensures Steps(r, 0) == r
  {
  }

  lemma FeedOne(r: nat, b: byte)
    ensures Feed(r, [b]) == Steps(Xor(r, b), 8)
  {
    hide Steps, Xor;
    assert [b][..0] == [];
  }

  lemma {:induction false} LittleRange(w: seq<byte>)
    ensures Little(w) < Pow2(8 * |w|)
    ensures Little(w) == 0 <==> forall i :: 0 <= i < |w| ==> w[i] == 0
  {
    if |w| > 0 {
      LittleRange(w[1..]);
      Pow2Add8(8 * |w[1..]|);
      assert forall i :: 1 <= i < |w| ==> w[i] == w[1..][i - 1];
    }
  }

  lemma Pow2Add8(n: nat)
    ensures Pow2(n + 8) == 256 * Pow2(n)
  {
    assert Pow2(n + 2) == 4 * Pow2(n);
    assert Pow2(n + 4) == 4 * Pow2(n + 2);
    assert Pow2(n + 6) == 4 * Pow2(n + 4);
  }

  lemma {:induction false} Pow2Monotone(i: nat, j: nat)
    requires i <= j
    ensures Pow2(i) <= Pow2(j)
  {
    if i < j {
      Pow2Monotone(i, j - 1);
    }
  }

  /** A nonzero window of at most eight bytes among zeros leaves a nonzero remainder. */
  lemma WindowNonzero(head: seq<byte>, window: seq<byte>, tail: seq<byte>)
    requires forall x :: 0 <= x < |head| ==> head[x] == 0
    requires forall x :: 0 <= x < |tail| ==> tail[x] == 0
    requires |window| <= 8 && exists x :: 0 <= x < |window| && window[x] != 0
    ensures Feed(0, head + window + tail) != 0
  {
    hide Xor, Steps, Pow2, Feed;
    LittleRange(window);
    Pow2Monotone(8 * |window|, 64);
    Pow2Of64();
    FeedConcat(0, head + window, tail);
    FeedConcat(0, head, window);
    FeedZeros(0, head);
    FeedLittle(0, window);
    XorZero(Little(window));
    StepsNonzero(Little(window), 8 * |window|);
    FeedZeros(Feed(0, window), tail);
  }

  lemma DifferenceAt(a: seq<byte>, b: seq<byte>)
    requires |a| == |b|
    ensures forall x :: 0 <= x < |a| ==> (XorAll(a, b)[x] == 0 <==> a[x] == b[x])
  {
    forall x | 0 <= x < |a| ensures XorAll(a, b)[x] == 0 <==> a[x] == b[x] {
      XorCancel(a[x], b[x]);
    }
  }

  /** Two messages that differ only within eight consecutive bytes never share a CRC. */
  lemma DetectsBurst(a: seq<byte>, b: seq<byte>, i: nat, j: nat)
    requires |a| == |b| && i <= j <= |a| && j - i <= 8
    requires a[..i] == b[..i] && a[j..] == b[j..] && a != b
    ensures Crc(a) != Crc(b)
  {
    hide Xor, Feed, XorAll;
    var d := XorAll(a, b);
    DifferenceAt(a, b);
    assert forall x :: 0 <= x < i ==> a[x] == a[..i][x] && b[x] == b[..i][x];
    assert forall x :: j <= x < |a| ==> a[x] == a[j..][x - j] && b[x] == b[j..][x - j];
    var x :| 0 <= x < |a| && a[x] != b[x];
    assert d[i..j][x - i] != 0;
    WindowNonzero(d[..i], d[i..j], d[j..]);
    assert d[..i] + d[i..j] + d[j..] == d;
    FeedXor(MASK64, MASK64, a, b);
    XorSelf(MASK64);
    XorCancel(Feed(MASK64, a), Feed(MASK64, b));
    XorCancel(Feed(MASK64, a), MASK64);
    XorCancel(Feed(MASK64, b), MASK64);
  }

  // ----- the parameters

  /** The lookup of the top bit is the reflected ECMA-182 polynomial. */
  lemma TopEntry()
    ensures TableEntry(0x80) == 0xC96C_5795_D787_0F42
  {
    hide Xor, Steps;
    Shift7();
    StepsAdd(0x80, 7, 1);
    StepsOfShift(1, 7);
    OneStep(1);
    XorZero(POLYNOMIAL);
  }

  lemma Shift7()
    ensures Shift(1, 7) == 0x80
  {
    assert Shift(1, 5) == 0x20;
  }

  lemma OneStep(r: nat)
    ensures Steps(r, 1) == Step(r)
  {
  }

  /** Register and result start from all ones: nothing has the checksum 0, eight 0xFF bytes have all ones. */
  lemma StartsFromOnes()
    ensures Crc([]) == 0 && Crc(seq(8, _ => 0xFF)) == 0xFFFF_FFFF_FFFF_FFFF
  {
    hide Xor, Steps, Feed, Little;
    var ones: seq<byte> := seq(8, _ => 0xFF);
    FeedNothing(MASK64);
    XorSelf(MASK64);
    LittleOfOnes(ones);
    FeedLittle(MASK64, ones);
    StepsOfZero(64);
    XorZero(MASK64);
  }

  lemma FeedNothing(r: nat)
    ensures Feed(r, []) == r
  {
  }

  lemma LittleOfOnes(w: seq<byte>)
    requires |w| == 8 && forall i :: 0 <= i < 8 ==> w[i] == 0xFF
    ensures Little(w) == MASK64
  {
    assert Little(w[7..]) == 0xFF;
    assert Little(w[6..]) == 0xFF + 256 * Little(w[7..]);
    assert Little(w[5..]) == 0xFF + 256 * Little(w[6..]);
    assert Little(w[4..]) == 0xFF + 256 * Little(w[5..]);
    assert Little(w[3..]) == 0xFF + 256 * Little(w[4..]);
    assert Little(w[2..]) == 0xFF + 256 * Little(w[3..]);
    assert Little(w[1..]) == 0xFF + 256 * Little(w[2..]);
  }

  /** What feeding eight more bytes leaves, from the remainder and the bytes. */
  lemma FeedTrailer(message: seq<byte>, trailer: seq<byte>)
    requires |trailer| == 8
    ensures Feed(MASK64, message + trailer) == Steps(Xor(Feed(MASK64, message), Little(trailer)), 64)
  {
    hide Xor, Steps, Feed, Little;
    FeedConcat(MASK64, message, trailer);
    FeedLittle(Feed(MASK64, message), trailer);
  }

  lemma StepsInjective(a: nat, b: nat)
    requires a <= MASK64 && b <= MASK64 && Steps(a, 64) == Steps(b, 64)
    ensures a == b
  {
    hide Xor, Steps, Pow2;
    StepsXor(a, b, 64);
    XorSelf(Steps(a, 64));
    Pow2Of64();
    XorBound(a, b, 64);
    if Xor(a, b) > 0 {
      StepsNonzero(Xor(a, b), 64);
    }
    XorCancel(a, b);
  }

  /**
   Eight bytes after a message are its checksum, lowest byte first, exactly when the checksum of the whole is that of
   eight zero bytes: one residue serves every message.
   */
  lemma ResidueIff(message: seq<byte>, trailer: seq<byte>)
    requires |trailer| == 8
    ensures Crc(message + trailer) == Crc(seq(8, _ => 0)) <==> trailer == ToLittle(Crc(message), 8)
  {
    hide Xor, Steps, Feed, Little, ToLittle, Pow2, Pow256;
    var zeros: seq<byte> := seq(8, _ => 0);
    var r, t := Feed(MASK64, message), Little(trailer);
    FeedTrailer(message, trailer);
    FeedTrailer([], zeros);
    FeedNothing(MASK64);
    LittleRange(zeros);
    LittleRange(trailer);
    XorZero(MASK64);
    assert [] + zeros == zeros;
    FeedFits(MASK64, message);
    Pow2Of64();
    XorBound(r, t, 64);
    EncodeLittle(trailer);
    CrcFits(message);
    Pow256Values();
    DecodeLittle(Crc(message), 8);
    // both checksums are inverted alike, and steps lose nothing
    XorBack(Steps(Xor(r, t), 64), Steps(MASK64, 64), MASK64);
    if Steps(Xor(r, t), 64) == Steps(MASK64, 64) {
      StepsInjective(Xor(r, t), MASK64);
    }
    TrailerIs(r, t);
  }

  lemma XorBack(a: nat, b: nat, m: nat)
    ensures Xor(a, m) == Xor(b, m) <==> a == b
  {
    hide Xor;
    XorAssociates(a, m, m);
    XorAssociates(b, m, m);
    XorSelf(m);
    XorZero(a);
    XorZero(b);
  }

  lemma TrailerIs(r: nat, t: nat)
    ensures Xor(r, t) == MASK64 <==> t == Xor(r, MASK64)
  {
    hide Xor;
    XorAssociates(r, r, t);
    XorAssociates(r, r, MASK64);
    XorSelf(r);
    XorZero(t);
    XorZero(MASK64);
  }
}
