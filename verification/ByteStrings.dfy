/** Byte strings: slices, big-endian numbers and the lexicographic order. */
module ByteStrings {
  import opened Bits

  type bytes = seq<byte>

  const U8_LIMIT: nat := 0x100
  const U16_LIMIT: nat := 0x1_0000
  const U32_LIMIT: nat := 0x1_0000_0000
  const U64_LIMIT: nat := 0x1_0000_0000_0000_0000

  /** `part` stands in `data` at `pos`. */
  predicate At(data: bytes, pos: nat, part: bytes) {
    pos + |part| <= |data| && data[pos..pos + |part|] == part
  }

  lemma AtConcat(data: bytes, pos: nat, a: bytes, b: bytes)
    ensures At(data, pos, a + b) <==> At(data, pos, a) && At(data, pos + |a|, b)
  {
    if pos + |a| + |b| <= |data| {
      var both := data[pos..pos + |a| + |b|];
      assert both[..|a|] == data[pos..pos + |a|];
      assert both[|a|..] == data[pos + |a|..pos + |a| + |b|];
      assert both == both[..|a|] + both[|a|..];
      assert (a + b)[..|a|] == a && (a + b)[|a|..] == b;
    }
  }

  lemma AtFits(data: bytes, pos: nat, part: bytes)
    requires At(data, pos, part)
    ensures pos + |part| <= |data| && data[pos..pos + |part|] == part
  {
  }

  lemma AtItself(part: bytes)
    ensures At(part, 0, part)
  {
  }

  lemma AtPrefix(a: bytes, b: bytes, pos: nat, part: bytes)
    requires At(a, pos, part)
    ensures At(a + b, pos, part)
  {
    assert (a + b)[pos..pos + |part|] == a[pos..pos + |part|];
  }

  lemma AtSuffix(a: bytes, b: bytes, pos: nat, part: bytes)
    requires At(b, pos, part)
    ensures At(a + b, |a| + pos, part)
  {
    assert (a + b)[|a| + pos..|a| + pos + |part|] == b[pos..pos + |part|];
  }

  lemma Adjacent(data: bytes, i: nat, j: nat, k: nat)
    requires i <= j <= k <= |data|
    ensures data[i..j] + data[j..k] == data[i..k]
  {
  }

  /** Inputs that begin alike hold the same slices there. */
  lemma SameSlice(a: bytes, b: bytes, n: nat, i: nat, j: nat)
    requires i <= j <= n <= |a| && n <= |b| && a[..n] == b[..n]
    ensures a[i..j] == b[i..j]
  {
    assert a[i..j] == a[..n][i..j] && b[i..j] == b[..n][i..j];
  }

  lemma SliceOfSlice(data: bytes, pos: nat, len: nat, i: nat, j: nat)
    requires i <= j <= len && pos + len <= |data|
    ensures data[pos..pos + len][i..j] == data[pos + i..pos + j]
  {
    var a, b := data[pos..pos + len][i..j], data[pos + i..pos + j];
    assert |a| == |b|;
    assert forall k :: 0 <= k < |a| ==> a[k] == b[k];
    assert a == b;
  }

  // ----- little-endian numbers

  /** The bytes as one little-endian number. */
  function Little(w: bytes): nat {
    if |w| == 0 then 0 else w[0] + 256 * Little(w[1..])
  }

  function ToLittle(n: nat, width: nat): (b: bytes)
    ensures |b| == width
    decreases width
  {
    if width == 0 then [] else [n % 256] + ToLittle(n / 256, width - 1)
  }

  lemma {:induction false} DecodeLittle(n: nat, width: nat)
    requires n < Pow256(width)
    ensures Little(ToLittle(n, width)) == n
    decreases width
  {
    if width > 0 {
      DecodeLittle(n / 256, width - 1);
      assert ToLittle(n, width)[1..] == ToLittle(n / 256, width - 1);
    }
  }

  lemma {:induction false} EncodeLittle(w: bytes)
    ensures Little(w) < Pow256(|w|) && ToLittle(Little(w), |w|) == w
    decreases |w|
  {
    if |w| > 0 {
      EncodeLittle(w[1..]);
      assert w == [w[0]] + w[1..];
    }
  }

  // ----- big-endian numbers

  function Pow256(width: nat): nat {
    if width == 0 then 1 else 256 * Pow256(width - 1)
  }

  /** The low `width` bytes of n, most significant first. */
  function BigEndian(n: nat, width: nat): (r: bytes)
    ensures |r| == width
    decreases width
  {
    if width == 0 then [] else BigEndian(n / 256, width - 1) + [n % 256]
  }

  function FromBigEndian(s: bytes): nat {
    if |s| == 0 then 0 else 256 * FromBigEndian(s[..|s| - 1]) + s[|s| - 1]
  }

  lemma {:induction false} DecodeBigEndian(n: nat, width: nat)
    requires n < Pow256(width)
    ensures FromBigEndian(BigEndian(n, width)) == n
    decreases width
  {
    if width > 0 {
      DecodeBigEndian(n / 256, width - 1);
      assert BigEndian(n, width)[..width - 1] == BigEndian(n / 256, width - 1);
    }
  }

  lemma {:induction false} EncodeBigEndian(s: bytes)
    ensures BigEndian(FromBigEndian(s), |s|) == s
    ensures FromBigEndian(s) < Pow256(|s|)
  {
    if |s| > 0 {
      var n := |s| - 1;
      EncodeBigEndian(s[..n]);
      assert s == s[..n] + [s[n]];
    }
  }

  lemma Pow256Values()
    ensures Pow256(1) == U8_LIMIT && Pow256(2) == U16_LIMIT && Pow256(4) == U32_LIMIT && Pow256(8) == U64_LIMIT
  {
    assert Pow256(2) == 0x1_0000;
    assert Pow256(4) == 0x1_0000_0000;
    assert Pow256(6) == 0x1_0000_0000_0000;
  }

  /** A string of ASCII characters, as bytes. */
  function Ascii(s: string): (b: bytes)
    ensures |b| == |s| && forall i :: 0 <= i < |s| ==> b[i] == s[i] as nat % 256
  {
    seq(|s|, i requires 0 <= i < |s| => s[i] as nat % 256)
  }

  // ----- zero bytes

  function Zeros(n: nat): (r: bytes)
    ensures |r| == n && forall i :: 0 <= i < n ==> r[i] == 0
  {
    seq(n, _ => 0)
  }

  predicate AllZero(s: bytes) {
    forall i :: 0 <= i < |s| ==> s[i] == 0
  }

  lemma AllZeroIsZeros(s: bytes)
    ensures AllZero(s) <==> s == Zeros(|s|)
  {
  }

  // ----- the lexicographic order

  predicate Less(a: bytes, b: bytes)
    decreases |a|
  {
    if |b| == 0 then false
    else if |a| == 0 then true
    else if a[0] != b[0] then a[0] < b[0]
    else Less(a[1..], b[1..])
  }

  /** Shorter first, then lexicographic. */
  predicate ShorterOrLess(a: bytes, b: bytes) {
    |a| < |b| || (|a| == |b| && Less(a, b))
  }

  lemma {:induction false} LessTrichotomy(a: bytes, b: bytes)
    ensures !Less(a, a)
    ensures Less(a, b) || a == b || Less(b, a)
    ensures !(Less(a, b) && Less(b, a))
    decreases |a|
  {
    if |a| > 0 && |b| > 0 {
      LessTrichotomy(a[1..], b[1..]);
      assert a == [a[0]] + a[1..] && b == [b[0]] + b[1..];
    }
    if |a| > 0 {
      LessTrichotomy(a[1..], a[1..]);
    }
  }

  lemma {:induction false} LessTransitive(a: bytes, b: bytes, c: bytes)
    requires Less(a, b) && Less(b, c)
    ensures Less(a, c)
    decreases |a|
  {
    if |a| > 0 && a[0] == b[0] && b[0] == c[0] {
      LessTransitive(a[1..], b[1..], c[1..]);
    }
  }
}
