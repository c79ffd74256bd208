/** Pax extended-header records: their self-referential length, and the pad that aligns the payload after them. */
module Pax {
  import opened Bits
  import opened ByteStrings
  import opened Outcomes
  import opened Arithmetic

  const TAR_RECORD: nat := 512

  /** A whole number of tar records. */
  predicate Whole(n: nat) {
    n % TAR_RECORD == 0
  }

  lemma NextWhole(m: nat, n: nat)
    requires Whole(m) && Whole(n) && m < n
    ensures Whole(m + TAR_RECORD) && m + TAR_RECORD <= n
  {
  }

  // ----- decimal numerals

  function Pow10(d: nat): nat {
    if d == 0 then 1 else 10 * Pow10(d - 1)
  }

  /** The length of n in decimal. */
  function Digits(n: nat): (d: nat)
    ensures d >= 1
  {
    if n < 10 then 1 else 1 + Digits(n / 10)
  }

  function Decimal(n: nat): (s: bytes)
    ensures |s| == Digits(n)
  {
    if n < 10 then [48 + n] else Decimal(n / 10) + [48 + n % 10]
  }

  lemma {:induction false} DigitsBounds(n: nat)
    ensures n < Pow10(Digits(n)) && (n > 0 ==> Pow10(Digits(n) - 1) <= n)
  {
    if n < 10 {
      assert Pow10(1) == 10 && Pow10(0) == 1;
    } else {
      DigitsBounds(n / 10);
    }
  }

  lemma {:induction false} Pow10Monotone(a: nat, b: nat)
    requires a <= b
    ensures Pow10(a) <= Pow10(b)
    decreases b
  {
    if a < b {
      Pow10Monotone(a, b - 1);
    }
  }

  lemma {:induction false} Pow10Exceeds(d: nat)
    ensures Pow10(d) > d && (d >= 1 ==> Pow10(d) >= 10 * d)
  {
    if d > 0 {
      Pow10Exceeds(d - 1);
    }
  }

  lemma DigitsOfZero()
    ensures Digits(0) == 1
  {
  }

  lemma DigitsUnique(n: nat, d: nat)
    requires d >= 1 && n < Pow10(d) && (d > 1 ==> Pow10(d - 1) <= n)
    ensures Digits(n) == d
  {
    hide Digits, Pow10;
    DigitsOfZero();
    DigitsBounds(n);
    if Digits(n) < d {
      Pow10Monotone(Digits(n), d - 1);
    } else if d < Digits(n) {
      Pow10Monotone(d, Digits(n) - 1);
    }
  }

  lemma DigitsMonotone(m: nat, n: nat)
    requires m <= n
    ensures Digits(m) <= Digits(n)
  {
    hide Digits, Pow10;
    DigitsOfZero();
    DigitsBounds(m);
    DigitsBounds(n);
    if Digits(n) < Digits(m) {
      Pow10Monotone(Digits(n), Digits(m) - 1);
    }
  }

  /** Adding its own digit count lengthens a number by at most one digit. */
  lemma AddDigits(base: nat, extra: nat)
    requires extra <= Digits(base) + 1
    ensures Digits(base) <= Digits(base + extra) <= Digits(base) + 1
  {
    hide Digits;
    var d := Digits(base);
    DigitsMonotone(base, base + extra);
    DigitsBounds(base);
    DigitsBounds(base + extra);
    Pow10Exceeds(d);
    if Digits(base + extra) > d + 1 {
      Pow10Monotone(d + 1, Digits(base + extra) - 1);
    }
  }

  // ----- the length of a record

  /** The length of a record whose parts other than the length itself take `base` bytes. */
  function PaxLen(base: nat): nat {
    var d := Digits(base);
    if Digits(base + d) == d then base + d else base + d + 1
  }

  predicate FixedPoint(base: nat, len: nat) {
    len == base + Digits(len)
  }

  /** The length counts its own digits, and no smaller number does. */
  lemma PaxLenIsLeast(base: nat)
    ensures FixedPoint(base, PaxLen(base))
    ensures forall len :: FixedPoint(base, len) ==> PaxLen(base) <= len
  {
    hide Digits;
    var d := Digits(base);
    AddDigits(base, d);
    AddDigits(base, d + 1);
    DigitsMonotone(base + d, base + d + 1);
    forall len: nat | FixedPoint(base, len)
      ensures PaxLen(base) <= len
    {
      DigitsMonotone(base, len);
    }
  }

  /** One more byte of value lengthens the record by one byte or two: at most one length is skipped. */
  lemma PaxLenStep(base: nat)
    ensures PaxLen(base) < PaxLen(base + 1) <= PaxLen(base) + 2
  {
    hide Digits;
    var d := Digits(base);
    AddDigits(base, 1);
    AddDigits(base, d);
    AddDigits(base + 1, Digits(base + 1));
    if Digits(base + 1) == d {
      DigitsMonotone(base + d, base + 1 + d);
    } else {
      LongerDigits(base);
    }
  }

  lemma LongerDigits(base: nat)
    requires Digits(base + 1) == Digits(base) + 1
    ensures Digits(base + Digits(base)) == Digits(base) + 1
    ensures Digits(base + 1 + Digits(base + 1)) == Digits(base + 1)
  {
    hide Digits;
    var d := Digits(base);
    AddDigits(base, d);
    DigitsMonotone(base + 1, base + d);
    DigitsBounds(base);
    DigitsBounds(base + 1);
    Pow10Exceeds(d);
    assert base + 1 == Pow10(d);
    assert Pow10(d + 1) == 10 * Pow10(d);
    DigitsUnique(base + 1 + (d + 1), d + 1);
  }

  /** `pax_record_len`: iterates the digit count to its fixed point. */
  method PaxRecordLen(keyLen: nat, valueLen: nat) returns (len: nat)
    ensures len == PaxLen(keyLen + valueLen + 3)
  {
    hide Digits;
    var base := keyLen + valueLen + 3;
    var digits := Digits(base);
    AddDigits(base, digits);
    AddDigits(base, digits + 1);
    DigitsMonotone(base + digits, base + digits + 1);
    while true
      invariant digits == Digits(base) || (digits == Digits(base) + 1 && Digits(base + Digits(base)) == digits)
      decreases Digits(base) + 1 - digits
    {
      var total := base + digits;
      var next := Digits(total);
      if next == digits {
        return total;
      }
      digits := next;
    }
  }

  // ----- the pad

  /** "REMANENCE.pad" */
  const PAD_KEY: bytes := [82, 69, 77, 65, 78, 69, 78, 67, 69, 46, 112, 97, 100]

  lemma PadSpelling()
    ensures PAD_KEY == Ascii("REMANENCE.pad")
  {
  }

  /** The pax body's length when a pad of `pad` spaces joins records of total length `baseLen`. */
  function PaddedLen(baseLen: nat, pad: nat): nat {
    baseLen + PaxLen(|PAD_KEY| + pad + 3)
  }

  lemma {:induction false} PaddedLenIncreases(baseLen: nat, pad: nat, more: nat)
    requires pad <= more
    ensures PaddedLen(baseLen, pad) + (more - pad) <= PaddedLen(baseLen, more)
    decreases more
  {
    hide PaxLen;
    if pad < more {
      PaddedLenIncreases(baseLen, pad, more - 1);
      PaxLenStep(|PAD_KEY| + (more - 1) + 3);
    }
  }

  /** The longest pad whose padded body still fits the target. */
  ghost predicate LongestPad(baseLen: nat, target: nat, pad: nat) {
    PaddedLen(baseLen, pad) <= target < PaddedLen(baseLen, pad + 1)
  }

  /** `max_pad_len_for_target`: binary search over the pad length. */
  method MaxPadLen(baseLen: nat, target: nat) returns (best: nat)
    ensures PaddedLen(baseLen, 0) <= target ==> LongestPad(baseLen, target, best)
    ensures target < PaddedLen(baseLen, 0) ==> best == 0
  {
    hide PaxLen, PaddedLen;
    var lo, hi := 0, target;
    best := 0;
    Roomy(baseLen, target);
    while lo <= hi
      invariant 0 <= lo <= hi + 1 && 0 <= hi <= target
      invariant lo == 0 ==> best == 0
      invariant lo > 0 ==> best == lo - 1 && PaddedLen(baseLen, best) <= target
      invariant target < PaddedLen(baseLen, hi + 1)
    {
      var mid := lo + (hi - lo) / 2;
      var record := PaxRecordLen(|PAD_KEY|, mid);
      PaddedLenIs(baseLen, mid);
      if baseLen + record <= target {
        best := mid;
        lo := mid + 1;
      } else if mid == 0 {
        break;
      } else {
        hi := mid - 1;
      }
    }
    PaddedLenIncreases(baseLen, 0, best);
  }

  lemma PaddedLenIs(baseLen: nat, pad: nat)
    ensures PaddedLen(baseLen, pad) == baseLen + PaxLen(|PAD_KEY| + pad + 3)
  {
  }

  lemma Roomy(baseLen: nat, target: nat)
    ensures target < PaddedLen(baseLen, target + 1)
  {
    hide PaxLen;
    PaddedLenIncreases(baseLen, 0, target + 1);
  }

  /** Because at most one length is skipped, the longest pad brings the body within a byte of the target. */
  lemma LongestPadReaches(baseLen: nat, target: nat, pad: nat)
    requires LongestPad(baseLen, target, pad) && Whole(target)
    ensures Ceil(PaddedLen(baseLen, pad), TAR_RECORD) == target
  {
    hide PaxLen;
    PaxLenStep(|PAD_KEY| + pad + 3);
    assert PaddedLen(baseLen, pad) == target || PaddedLen(baseLen, pad) + 1 == target;
  }

  // ----- the target

  /** Two tar headers stand between an entry's offset and its payload, besides the pax body. */
  const HEADERS: nat := 1024

  /** The least body length from `least` up that puts the payload on a chunk boundary. */
  function Target(offset: nat, chunkSize: nat, least: nat): (t: nat)
    requires chunkSize > 0
    ensures least <= t < least + chunkSize && (offset + HEADERS + t) % chunkSize == 0
  {
    Ceil(offset + HEADERS + least, chunkSize) - (offset + HEADERS)
  }

  lemma TargetIsLeast(offset: nat, chunkSize: nat, least: nat, t: nat)
    requires chunkSize > 0 && least <= t <= Target(offset, chunkSize, least) && Completes(offset, chunkSize, t)
    ensures t == Target(offset, chunkSize, least)
  {
    hide Target;
    var m, n := offset + HEADERS + t, offset + HEADERS + Target(offset, chunkSize, least);
    DivMod(m, chunkSize);
    DivMod(n, chunkSize);
    if m / chunkSize < n / chunkSize {
      MulMonotone(m / chunkSize + 1, n / chunkSize, chunkSize);
      Successor(m / chunkSize, chunkSize);
    } else {
      MulMonotone(n / chunkSize, m / chunkSize, chunkSize);
    }
  }

  lemma MultipleOfMultiple(n: nat, c: nat, unit: nat)
    requires unit > 0 && c > 0 && n % c == 0 && c % unit == 0
    ensures n % unit == 0
  {
    var q, k := n / c, c / unit;
    DivMod(n, c);
    DivMod(c, unit);
    Reassociate(q, k, unit);
    MultipleMod(q * k, unit);
  }

  lemma Reassociate(q: nat, k: nat, unit: nat)
    ensures q * (k * unit) == (q * k) * unit && q * k >= 0
  {
  }

  /** A body of length `t` puts the payload on a chunk boundary. */
  predicate Completes(offset: nat, chunkSize: nat, t: nat)
    requires chunkSize > 0
  {
    (offset + HEADERS + t) % chunkSize == 0
  }

  /** The residue the solver aims for is the one that completes a chunk. */
  lemma Residue(offset: nat, w: nat, c: nat)
    requires c > 0
    ensures Rem(w, c) == Rem(c - Rem(offset + HEADERS, c), c) <==> Completes(offset, c, w)
  {
    hide Rem, Completes;
    var x := offset + HEADERS;
    RemOfSum(x, w, c);
    RemParts(x, w, c);
  }

  lemma RemParts(x: nat, w: nat, c: nat)
    requires c > 0
    ensures Rem(c - Rem(x, c), c) == if Rem(x, c) == 0 then 0 else c - Rem(x, c)
    ensures x >= HEADERS ==> (Completes(x - HEADERS, c, w) <==> Rem(x + w, c) == 0)
  {
    if x % c == 0 {
      DivUnique(c, c, 1, 0);
    } else {
      DivUnique(c - x % c, c, 0, c - x % c);
    }
  }

  lemma RemOfSum(x: nat, w: nat, c: nat)
    requires c > 0
    ensures Rem(x + w, c) == if Rem(x, c) + Rem(w, c) < c then Rem(x, c) + Rem(w, c) else Rem(x, c) + Rem(w, c) - c
  {
    var a, b := Quo(x, c), Quo(w, c);
    QuoRem(x, c);
    QuoRem(w, c);
    var q, r := a + b, Rem(x, c) + Rem(w, c);
    hide Rem, Quo;
    Distribute(a, b, c);
    if r < c {
      RemUnique(x + w, c, q, r);
    } else {
      Successor(q, c);
      RemUnique(x + w, c, q + 1, r - c);
    }
  }

  lemma RemUnique(n: nat, c: nat, q: nat, r: nat)
    requires c > 0 && n == q * c + r && r < c
    ensures Rem(n, c) == r
  {
    DivUnique(n, c, q, r);
  }

  lemma Distribute(a: nat, b: nat, c: nat)
    ensures (a + b) * c == a * c + b * c
  {
  }

  /** Steps one tar record at a time to the first target. */
  method FirstTarget(offset: nat, chunkSize: nat, least: nat) returns (t: nat)
    requires chunkSize > 0 && Whole(chunkSize) && Whole(offset) && Whole(least)
    ensures t == Target(offset, chunkSize, least) && Whole(t)
  {
    hide Rem, Completes, Target, Whole;
    var residue := Rem(chunkSize - Rem(offset + HEADERS, chunkSize), chunkSize);
    ghost var goal := Target(offset, chunkSize, least);
    AlignedTarget(offset, chunkSize, least);
    TargetCompletes(offset, chunkSize, least);
    t := least;
    Residue(offset, t, chunkSize);
    while Rem(t, chunkSize) != residue
      invariant least <= t <= goal && Whole(t)
      invariant Rem(t, chunkSize) == residue <==> Completes(offset, chunkSize, t)
      decreases goal - t
    {
      NextWhole(t, goal);
      t := t + TAR_RECORD;
      Residue(offset, t, chunkSize);
    }
    TargetIsLeast(offset, chunkSize, least, t);
  }

  lemma TargetCompletes(offset: nat, chunkSize: nat, least: nat)
    requires chunkSize > 0
    ensures Completes(offset, chunkSize, Target(offset, chunkSize, least))
  {
    hide Target;
  }

  /** Where the solver starts: the first target from the shortest padded body up. */
  function StartTarget(offset: nat, chunkSize: nat, baseLen: nat): nat
    requires chunkSize > 0
  {
    Target(offset, chunkSize, Ceil(PaddedLen(baseLen, 0), TAR_RECORD))
  }

  ghost function PadUpTo(baseLen: nat, target: nat, hi: nat): (pad: nat)
    requires PaddedLen(baseLen, 0) <= target < PaddedLen(baseLen, hi + 1)
    ensures LongestPad(baseLen, target, pad)
  {
    if PaddedLen(baseLen, hi) <= target then hi else PadUpTo(baseLen, target, hi - 1)
  }

  /** The pad of an entry: the longest that fits its start target. */
  ghost function SolvedPad(offset: nat, chunkSize: nat, baseLen: nat): (pad: nat)
    requires chunkSize > 0
    ensures LongestPad(baseLen, StartTarget(offset, chunkSize, baseLen), pad)
  {
    var t := StartTarget(offset, chunkSize, baseLen);
    Roomy(baseLen, t);
    PadUpTo(baseLen, t, t)
  }

  lemma LongestPadIsUnique(baseLen: nat, target: nat, p: nat, q: nat)
    requires LongestPad(baseLen, target, p) && LongestPad(baseLen, target, q)
    ensures p == q
  {
    hide PaddedLen;
    if p < q {
      PaddedLenIncreases(baseLen, p + 1, q);
    } else if q < p {
      PaddedLenIncreases(baseLen, q + 1, p);
    }
  }

  /** The pad that the search finds for the start target passes the solver's test. */
  lemma StartTargetIsReached(offset: nat, chunkSize: nat, baseLen: nat, pad: nat)
    requires chunkSize > 0 && Whole(StartTarget(offset, chunkSize, baseLen))
    requires LongestPad(baseLen, StartTarget(offset, chunkSize, baseLen), pad)
    ensures pad == SolvedPad(offset, chunkSize, baseLen)
    ensures Ceil(PaddedLen(baseLen, pad), TAR_RECORD) == StartTarget(offset, chunkSize, baseLen)
  {
    hide PaddedLen, StartTarget, LongestPad, Whole;
    var target := StartTarget(offset, chunkSize, baseLen);
    LongestPadIsUnique(baseLen, target, pad, SolvedPad(offset, chunkSize, baseLen));
    LongestPadReaches(baseLen, target, pad);
  }

  /**
   `with_alignment_pad`: the pad, in spaces. Five targets are tried at most; the first always succeeds, so the search
   never gives up.
   */
  method AlignmentPad(offset: nat, chunkSize: nat, baseLen: nat) returns (r: Option<nat>)
    requires chunkSize > 0 && Whole(chunkSize) && Whole(offset)
    ensures r == Some(SolvedPad(offset, chunkSize, baseLen))
    ensures Ceil(PaddedLen(baseLen, r.value), TAR_RECORD) == StartTarget(offset, chunkSize, baseLen)
  {
    hide PaxLen, PaddedLen, Target, LongestPad, Whole, Ceil;
    var record := PaxRecordLen(|PAD_KEY|, 0);
    PaddedLenIs(baseLen, 0);
    CeilIsWhole(baseLen + record);
    var first := FirstTarget(offset, chunkSize, Ceil(baseLen + record, TAR_RECORD));
    r := None;
    var target: int, last: int := first, first + 4 * chunkSize;
    while r.None? && target <= last
      invariant r.None? ==> target == first
      invariant r.Some? ==>
        && r.value == SolvedPad(offset, chunkSize, baseLen)
        && Ceil(PaddedLen(baseLen, r.value), TAR_RECORD) == first
      decreases last - target, r.None?
    {
      var pad := MaxPadLen(baseLen, target);
      record := PaxRecordLen(|PAD_KEY|, pad);
      PaddedLenIs(baseLen, pad);
      StartTargetIsReached(offset, chunkSize, baseLen, pad);
      if Ceil(baseLen + record, TAR_RECORD) == target {
        r := Some(pad);
      } else {
        target := target + chunkSize;
      }
    }
  }

  lemma CeilIsWhole(n: nat)
    ensures Whole(Ceil(n, TAR_RECORD)) && Whole(HEADERS)
    ensures n + (TAR_RECORD - n % TAR_RECORD) % TAR_RECORD == Ceil(n, TAR_RECORD)
  {
  }

  lemma AlignedTarget(offset: nat, chunkSize: nat, least: nat)
    requires chunkSize > 0 && Whole(chunkSize) && Whole(offset) && Whole(least)
    ensures Whole(Target(offset, chunkSize, least))
  {
    hide Target, Whole, Completes;
    var t := Target(offset, chunkSize, least);
    TargetCompletes(offset, chunkSize, least);
    WholeChunks(offset, chunkSize, t);
    WholeRest(offset, t);
  }

  lemma WholeChunks(offset: nat, chunkSize: nat, t: nat)
    requires chunkSize > 0 && Whole(chunkSize) && Completes(offset, chunkSize, t)
    ensures Whole(offset + HEADERS + t)
  {
    MultipleOfMultiple(offset + HEADERS + t, chunkSize, TAR_RECORD);
  }

  lemma WholeRest(offset: nat, t: nat)
    requires Whole(offset) && Whole(offset + HEADERS + t)
    ensures Whole(t)
  {
  }
}
