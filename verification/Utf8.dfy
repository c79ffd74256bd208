/** Well-formed UTF-8, by the byte ranges of section 4 of RFC 3629. */
module Utf8 {
  import opened Bits
  import opened ByteStrings

  predicate Tail(b: byte) {
    0x80 <= b <= 0xBF
  }

  /** The length of the scalar value that `s` starts with, or 0 if it starts with none. */
  function ScalarLength(s: bytes): (n: nat)
    ensures n <= |s|
  {
    if |s| >= 1 && s[0] <= 0x7F then 1
    else if |s| >= 2 && 0xC2 <= s[0] <= 0xDF && Tail(s[1]) then 2
    else if |s| >= 3 && ThreeByteLead(s[0], s[1]) && Tail(s[2]) then 3
    else if |s| >= 4 && FourByteLead(s[0], s[1]) && Tail(s[2]) && Tail(s[3]) then 4
    else 0
  }

  predicate ThreeByteLead(b: byte, c: byte) {
    || (b == 0xE0 && 0xA0 <= c <= 0xBF)
    || (0xE1 <= b <= 0xEC && Tail(c))
    || (b == 0xED && 0x80 <= c <= 0x9F)
    || (0xEE <= b <= 0xEF && Tail(c))
  }

  predicate FourByteLead(b: byte, c: byte) {
    || (b == 0xF0 && 0x90 <= c <= 0xBF)
    || (0xF1 <= b <= 0xF3 && Tail(c))
    || (b == 0xF4 && 0x80 <= c <= 0x8F)
  }

  predicate ValidUtf8(s: bytes) {
    |s| == 0 || (var n := ScalarLength(s); n > 0 && ValidUtf8(s[n..]))
  }

  lemma {:induction false} AsciiIsUtf8(s: bytes)
    requires forall i :: 0 <= i < |s| ==> s[i] <= 0x7F
    ensures ValidUtf8(s)
    decreases |s|
  {
    if |s| > 0 {
      assert ScalarLength(s) == 1;
      AsciiIsUtf8(s[1..]);
    }
  }

  // ----- scalar values

  /** A Unicode scalar value. */
  predicate Scalar(cp: nat) {
    cp < 0xD800 || 0xE000 <= cp < 0x11_0000
  }

  /** Its encoding, by the table of section 3 of RFC 3629. */
  function EncodeScalar(cp: nat): (b: bytes)
    requires Scalar(cp)
    ensures 1 <= |b| <= 4
  {
    if cp < 0x80 then [cp]
    else if cp < 0x800 then [0xC0 + cp / 0x40, 0x80 + cp % 0x40]
    else if cp < 0x1_0000 then [0xE0 + cp / 0x1000, 0x80 + cp / 0x40 % 0x40, 0x80 + cp % 0x40]
    else [0xF0 + cp / 0x4_0000, 0x80 + cp / 0x1000 % 0x40, 0x80 + cp / 0x40 % 0x40, 0x80 + cp % 0x40]
  }

  ghost predicate Scalars(cps: seq<nat>) {
    forall i :: 0 <= i < |cps| ==> Scalar(cps[i])
  }

  function EncodeText(cps: seq<nat>): bytes
    requires forall i :: 0 <= i < |cps| ==> Scalar(cps[i])
  {
    if |cps| == 0 then [] else EncodeScalar(cps[0]) + EncodeText(cps[1..])
  }

  lemma EncodedIsScalar(cp: nat, rest: bytes)
    requires Scalar(cp)
    ensures ScalarLength(EncodeScalar(cp) + rest) == |EncodeScalar(cp)|
  {
    if 0x800 <= cp < 0x1_0000 {
      ThreeByteScalar(cp);
    } else if cp >= 0x1_0000 {
      FourByteScalar(cp);
    }
  }

  lemma ThreeByteScalar(cp: nat)
    requires Scalar(cp) && 0x800 <= cp < 0x1_0000
    ensures cp / 0x1000 < 0x10 && ThreeByteLead(0xE0 + cp / 0x1000, 0x80 + cp / 0x40 % 0x40)
  {
    var q := cp / 0x40;
    assert 0x20 <= q < 0x400 && !(0x360 <= q < 0x380);
    assert cp / 0x1000 == q / 0x40;
  }

  lemma FourByteScalar(cp: nat)
    requires Scalar(cp) && cp >= 0x1_0000
    ensures cp / 0x4_0000 <= 4 && FourByteLead(0xF0 + cp / 0x4_0000, 0x80 + cp / 0x1000 % 0x40)
  {
    var q := cp / 0x1000;
    assert 0x10 <= q < 0x110;
    assert cp / 0x4_0000 == q / 0x40;
  }

  /** The scalar value that a nonempty well-formed text starts with. */
  lemma FirstScalar(s: bytes) returns (cp: nat)
    requires ScalarLength(s) > 0
    ensures Scalar(cp) && s[..ScalarLength(s)] == EncodeScalar(cp)
  {
    var n := ScalarLength(s);
    if n == 1 {
      cp := s[0];
    } else if n == 2 {
      cp := TwoBytes(s[0], s[1]);
    } else if n == 3 {
      cp := ThreeBytes(s[0], s[1], s[2]);
    } else {
      cp := FourBytes(s[0], s[1], s[2], s[3]);
    }
  }

  lemma TwoBytes(a: byte, b: byte) returns (cp: nat)
    requires 0xC2 <= a <= 0xDF && Tail(b)
    ensures Scalar(cp) && EncodeScalar(cp) == [a, b]
  {
    cp := (a - 0xC0) * 0x40 + (b - 0x80);
  }

  lemma ThreeBytes(a: byte, b: byte, c: byte) returns (cp: nat)
    requires ThreeByteLead(a, b) && Tail(c)
    ensures Scalar(cp) && EncodeScalar(cp) == [a, b, c]
  {
    cp := (a - 0xE0) * 0x1000 + (b - 0x80) * 0x40 + (c - 0x80);
    assert 0x800 <= cp < 0x1_0000 && (cp < 0xD800 || cp >= 0xE000);
    hide ThreeByteLead;
    Digits64(0, a - 0xE0, b - 0x80, c - 0x80);
    assert cp / 0x1000 < 0x40;
  }

  lemma FourBytes(a: byte, b: byte, c: byte, d: byte) returns (cp: nat)
    requires FourByteLead(a, b) && Tail(c) && Tail(d)
    ensures Scalar(cp) && EncodeScalar(cp) == [a, b, c, d]
  {
    cp := (a - 0xF0) * 0x4_0000 + (b - 0x80) * 0x1000 + (c - 0x80) * 0x40 + (d - 0x80);
    assert 0x1_0000 <= cp < 0x11_0000;
    hide FourByteLead;
    Digits64(a - 0xF0, b - 0x80, c - 0x80, d - 0x80);
  }

  /** Four digits to the base 64. */
  lemma Digits64(x: nat, y: nat, z: nat, w: nat)
    requires x < 0x40 && y < 0x40 && z < 0x40 && w < 0x40
    ensures var n := x * 0x4_0000 + y * 0x1000 + z * 0x40 + w;
      n / 0x4_0000 == x && n / 0x1000 % 0x40 == y && n / 0x40 % 0x40 == z && n % 0x40 == w
  {
    var n := x * 0x4_0000 + y * 0x1000 + z * 0x40 + w;
    assert n / 0x40 == x * 0x1000 + y * 0x40 + z;
    assert n / 0x1000 == x * 0x40 + y;
  }

  lemma {:induction false} EncodedIsValid(cps: seq<nat>)
    requires Scalars(cps)
    ensures ValidUtf8(EncodeText(cps))
    decreases |cps|
  {
    hide ScalarLength, EncodeScalar;
    if |cps| > 0 {
      EncodedIsValid(cps[1..]);
      var first, rest := EncodeScalar(cps[0]), EncodeText(cps[1..]);
      EncodedIsScalar(cps[0], rest);
      assert (first + rest)[|first|..] == rest;
    }
  }

  lemma {:induction false} ValidIsEncoded(s: bytes) returns (cps: seq<nat>)
    requires ValidUtf8(s)
    ensures Scalars(cps) && EncodeText(cps) == s
    decreases |s|
  {
    hide ScalarLength, EncodeScalar;
    if |s| == 0 {
      cps := [];
    } else {
      var n := ScalarLength(s);
      var first := FirstScalar(s);
      var rest := ValidIsEncoded(s[n..]);
      cps := [first] + rest;
      assert s == s[..n] + s[n..] && cps[1..] == rest;
    }
  }

  /** Bytes are well-formed exactly when they encode a sequence of scalar values. */
  lemma ValidIff(s: bytes)
    ensures ValidUtf8(s) <==> exists cps :: Scalars(cps) && EncodeText(cps) == s
  {
    hide ValidUtf8, EncodeText;
    if ValidUtf8(s) {
      var cps := ValidIsEncoded(s);
    }
    if cps :| Scalars(cps) && EncodeText(cps) == s {
      EncodedIsValid(cps);
    }
  }
}
