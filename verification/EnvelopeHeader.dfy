/** The 128-byte plaintext header of an envelope: a strict parser and a serializer, inverse to each other. */
module EnvelopeHeader {
  import opened Bits
  import opened Outcomes
  import opened ByteStrings
  import opened Utf8
  import opened Envelope

  const MAGIC: bytes := [82, 69, 77, 79]
  const FORMAT_VERSION: nat := 2
  const SUITE_ID: byte := 1
  const WRAP_SUITE_XWING: nat := 2

  /** Field widths are those of the wire: u8, u32, 16 bytes, u64, UTF-8 text, u8, u32. */
  datatype Header = Header(
    formatVersion: nat, chunkSize: nat, salt: bytes, metadataFrameLen: nat,
    objectId: bytes, wrapSuite: nat, keyFrameLen: nat)

  /** What the types of the fields guarantee. */
  predicate Typed(h: Header) {
    && h.formatVersion < U8_LIMIT && h.chunkSize < U32_LIMIT && |h.salt| == 16
    && h.metadataFrameLen < U64_LIMIT && ValidUtf8(h.objectId)
    && h.wrapSuite < U8_LIMIT && h.keyFrameLen < U32_LIMIT
  }

  // ----- the object-id field

  predicate ObjectIdOk(id: bytes) {
    1 <= |id| <= 64 && forall i :: 0 <= i < |id| ==> id[i] != 0
  }

  /** 64 bytes, padded with NUL. */
  function ObjectIdField(id: bytes): (r: Outcome<bytes>)
    ensures r.Ok? ==> |r.value| == 64
  {
    if !ObjectIdOk(id) then Err(InvalidObjectIdField) else Ok(id + Zeros(64 - |id|))
  }

  /** The number of bytes before the first NUL. */
  function UntilNul(s: bytes): (n: nat)
    ensures n <= |s| && (forall i :: 0 <= i < n ==> s[i] != 0) && (n < |s| ==> s[n] == 0)
  {
    if |s| == 0 || s[0] == 0 then 0 else 1 + UntilNul(s[1..])
  }

  function DecodeObjectIdField(field: bytes): Outcome<bytes> {
    var end := UntilNul(field);
    if end == 0 || !AllZero(field[end..]) then Err(InvalidObjectIdField)
    else if !ValidUtf8(field[..end]) then Err(InvalidObjectIdField)
    else Ok(field[..end])
  }

  /** `object_id_field`: copies the id into a zeroed buffer. */
  method FillObjectIdField(id: bytes) returns (r: Outcome<bytes>)
    ensures r == ObjectIdField(id)
  {
    if !ObjectIdOk(id) {
      return Err(InvalidObjectIdField);
    }
    var field := new byte[64](_ => 0);
    for i := 0 to |id|
      invariant forall j :: 0 <= j < 64 ==> field[j] == if j < i then id[j] else 0
    {
      field[i] := id[i];
    }
    assert field[..] == id + Zeros(64 - |id|);
    return Ok(field[..]);
  }

  lemma {:induction false} NulEndsId(id: bytes, pad: nat)
    requires forall i :: 0 <= i < |id| ==> id[i] != 0
    ensures UntilNul(id + Zeros(pad)) == |id|
    decreases |id|
  {
    if |id| > 0 {
      NulEndsId(id[1..], pad);
      assert (id + Zeros(pad))[1..] == id[1..] + Zeros(pad);
    }
  }

  lemma DecodesField(id: bytes)
    requires ObjectIdOk(id) && ValidUtf8(id)
    ensures DecodeObjectIdField(id + Zeros(64 - |id|)) == Ok(id)
  {
    hide ValidUtf8;
    var field := id + Zeros(64 - |id|);
    NulEndsId(id, 64 - |id|);
    assert field[..|id|] == id;
  }

  lemma EncodesField(field: bytes)
    requires |field| == 64 && DecodeObjectIdField(field).Ok?
    ensures ObjectIdField(DecodeObjectIdField(field).value) == Ok(field)
    ensures ValidUtf8(DecodeObjectIdField(field).value)
  {
    hide ValidUtf8;
    var end := UntilNul(field);
    AllZeroIsZeros(field[end..]);
    assert field == field[..end] + field[end..];
  }

  // ----- validation

  function ValidateMetadataFrameLen(len: nat): Outcome<()> {
    if METADATA_FRAME_MIN_LEN <= len <= METADATA_FRAME_MAX_LEN then Ok(()) else Err(MetadataFrameLengthInvalid)
  }

  function Validate(h: Header): Outcome<()> {
    if ValidateChunkSize(h.chunkSize).Err? then ValidateChunkSize(h.chunkSize)
    else if h.formatVersion != FORMAT_VERSION then Err(UnsupportedFormatVersion)
    else if h.wrapSuite != WRAP_SUITE_XWING then Err(InvalidWrapSuite)
    else if !(KEY_FRAME_MIN_LEN <= h.keyFrameLen <= KEY_FRAME_MAX_LEN) then Err(InvalidKeyFrameLength)
    else if AllZero(h.salt) then Err(InvalidSalt)
    else if ValidateMetadataFrameLen(h.metadataFrameLen).Err? then ValidateMetadataFrameLen(h.metadataFrameLen)
    else if !ObjectIdOk(h.objectId) then Err(InvalidObjectIdField)
    else Ok(())
  }

  predicate Valid(h: Header) {
    Typed(h) && Validate(h).Ok?
  }

  // ----- the wire form

  /** The byte at offset `i` of the serialized header. */
  function WireByte(h: Header, i: nat): byte
    requires Valid(h) && i < HEADER_LEN
  {
    if i < 0x04 then MAGIC[i]
    else if i < 0x06 then BigEndian(HEADER_LEN, 2)[i - 0x04]
    else if i == 0x06 then h.formatVersion
    else if i == 0x07 then SUITE_ID
    else if i < 0x0c then BigEndian(h.chunkSize, 4)[i - 0x08]
    else if i < 0x20 then 0
    else if i < 0x30 then h.salt[i - 0x20]
    else if i < 0x38 then BigEndian(h.metadataFrameLen, 8)[i - 0x30]
    else if i == 0x38 then h.wrapSuite
    else if i < 0x3c then 0
    else if i < 0x40 then BigEndian(h.keyFrameLen, 4)[i - 0x3c]
    else ObjectIdField(h.objectId).value[i - 0x40]
  }

  function Wire(h: Header): (w: bytes)
    requires Valid(h)
    ensures |w| == HEADER_LEN
  {
    seq(HEADER_LEN, i requires 0 <= i < HEADER_LEN => WireByte(h, i))
  }

  function Serialize(h: Header): (r: Outcome<bytes>)
    requires Typed(h)
    ensures r.Ok? <==> Valid(h)
    ensures r.Ok? ==> |r.value| == HEADER_LEN
  {
    if Validate(h).Err? then Err(Validate(h).error) else Ok(Wire(h))
  }

  function Parse(w: bytes): Outcome<Header>
    requires |w| == HEADER_LEN
  {
    if w[0..4] != MAGIC then Err(InvalidMagicBytes)
    else if FromBigEndian(w[4..6]) != HEADER_LEN then Err(InvalidHeaderLength)
    else if w[6] != FORMAT_VERSION then Err(UnsupportedFormatVersion)
    else if w[7] != SUITE_ID then Err(InvalidSuite)
    else if FromBigEndian(w[0x0c..0x10]) != 0 then Err(ReservedBytesNotZero)
    else if !AllZero(w[0x10..0x20]) then Err(ReservedBytesNotZero)
    else if !AllZero(w[0x39..0x3c]) then Err(ReservedBytesNotZero)
    else if w[0x38] != WRAP_SUITE_XWING then Err(InvalidWrapSuite)
    else
      var id := DecodeObjectIdField(w[0x40..0x80]);
      if id.Err? then Err(id.error)
      else
        var h := Header(w[6], FromBigEndian(w[8..0x0c]), w[0x20..0x30], FromBigEndian(w[0x30..0x38]),
                        id.value, w[0x38], FromBigEndian(w[0x3c..0x40]));
        if Validate(h).Err? then Err(Validate(h).error) else Ok(h)
  }

  // ----- exactly which headers are accepted

  /** An id of `n` bytes without NUL, then NULs. */
  ghost predicate IdOfLength(field: bytes, n: nat) {
    && 1 <= n <= |field| && ValidUtf8(field[..n])
    && forall i :: 0 <= i < |field| ==> (field[i] == 0 <==> i >= n)
  }

  lemma FieldDecodesIff(field: bytes)
    ensures DecodeObjectIdField(field).Ok? <==> exists n: nat :: IdOfLength(field, n)
  {
    hide ValidUtf8;
    var end := UntilNul(field);
    if DecodeObjectIdField(field).Ok? {
      forall i | 0 <= i < |field| ensures field[i] == 0 <==> i >= end {
        assert i >= end ==> field[i] == field[end..][i - end];
      }
      assert IdOfLength(field, end);
    }
    if n: nat :| IdOfLength(field, n) {
      assert end < n ==> field[end] == 0;
      assert n < end ==> field[n] != 0;
    }
  }

  /** The 128 bytes of an acceptable header, byte by byte. */
  ghost predicate Acceptable(w: bytes)
    requires |w| == 128
  {
    var chunkSize := FromBigEndian(w[8..12]);
    && w[..4] == Ascii("REMO") && w[4] == 0 && w[5] == 128 && w[6] == 2 && w[7] == 1
    && chunkSize > 0 && chunkSize % 512 == 0
    && (forall i :: 12 <= i < 32 ==> w[i] == 0)
    && (exists i :: 32 <= i < 48 && w[i] != 0)
    && 17 <= FromBigEndian(w[48..56]) <= 16777216
    && w[56] == 2 && w[57] == 0 && w[58] == 0 && w[59] == 0
    && 1191 <= FromBigEndian(w[60..64]) <= 16384
    && exists n: nat :: IdOfLength(w[64..], n)
  }

  lemma AcceptsExactly(w: bytes)
    requires |w| == 128
    ensures Parse(w).Ok? <==> Acceptable(w)
  {
    hide ValidUtf8, DecodeObjectIdField, FromBigEndian, IdOfLength;
    assert MAGIC == Ascii("REMO") && w[0..4] == w[..4];
    assert w[0x40..0x80] == w[64..];
    FieldDecodesIff(w[64..]);
    TwoBytes(w);
    FourZeroBytes(w[12..16]);
    if Parse(w).Ok? {
      EncodesField(w[64..]);
      forall i | 12 <= i < 32 ensures w[i] == 0 {
        assert w[i] == if i < 16 then w[12..16][i - 12] else w[16..32][i - 16];
      }
      var j :| 0 <= j < 16 && w[32..48][j] != 0;
      assert w[32 + j] != 0;
      assert w[57..60][0] == w[57] && w[57..60][1] == w[58] && w[57..60][2] == w[59];
    }
    if Acceptable(w) {
      EncodesField(w[64..]);
      var i :| 32 <= i < 48 && w[i] != 0;
      assert w[32..48][i - 32] != 0;
    }
  }

  lemma TwoBytes(w: bytes)
    requires |w| == 128
    ensures FromBigEndian(w[4..6]) == 128 <==> w[4] == 0 && w[5] == 128
  {
    var b := w[4..6];
    assert b[..1] == [w[4]] && b[..1][..0] == [];
    assert FromBigEndian(b[..1]) == w[4];
  }

  lemma FourZeroBytes(b: bytes)
    requires |b| == 4
    ensures FromBigEndian(b) == 0 <==> AllZero(b)
  {
    hide BigEndian, FromBigEndian;
    EncodeBigEndian(b);
    FourZeros();
    AllZeroIsZeros(b);
  }

  // ----- serialize, then parse

  /** The fields of a header, slice by slice. */
  ghost predicate Slices(h: Header, w: bytes)
    requires ObjectIdOk(h.objectId) && |w| == HEADER_LEN
  {
    && w[0..4] == MAGIC && w[4..6] == BigEndian(HEADER_LEN, 2) && w[6] == h.formatVersion && w[7] == SUITE_ID
    && w[8..0x0c] == BigEndian(h.chunkSize, 4) && w[0x0c..0x10] == Zeros(4) && AllZero(w[0x10..0x20])
    && w[0x20..0x30] == h.salt && w[0x30..0x38] == BigEndian(h.metadataFrameLen, 8)
    && w[0x38] == h.wrapSuite && AllZero(w[0x39..0x3c]) && w[0x3c..0x40] == BigEndian(h.keyFrameLen, 4)
    && w[0x40..0x80] == ObjectIdField(h.objectId).value
  }

  lemma WireSlices(h: Header)
    requires Valid(h)
    ensures Slices(h, Wire(h))
  {
    hide BigEndian, ValidUtf8;
  }

  lemma ParsesSerialized(h: Header)
    requires Valid(h)
    ensures Parse(Wire(h)) == Ok(h)
  {
    hide Wire, BigEndian, FromBigEndian, ValidUtf8, DecodeObjectIdField, Pow256;
    WireSlices(h);
    Pow256Values();
    DecodeBigEndian(HEADER_LEN, 2);
    DecodeBigEndian(h.chunkSize, 4);
    DecodeBigEndian(h.metadataFrameLen, 8);
    DecodeBigEndian(h.keyFrameLen, 4);
    FourZeros();
    DecodesField(h.objectId);
  }

  lemma FourZeros()
    ensures FromBigEndian(Zeros(4)) == 0 && BigEndian(0, 4) == Zeros(4)
  {
    assert BigEndian(0, 2) == [0, 0];
    assert BigEndian(0, 4) == [0, 0, 0, 0] == Zeros(4);
    DecodeBigEndian(0, 4);
  }

  // ----- parse, then serialize

  lemma ParsedFields(w: bytes)
    requires |w| == HEADER_LEN && Parse(w).Ok?
    ensures var h := Parse(w).value;
      && Valid(h)
      && Slices(h, w)
  {
    hide BigEndian, FromBigEndian, ValidUtf8, DecodeObjectIdField, Pow256;
    EncodeBigEndian(w[4..6]);
    EncodeBigEndian(w[8..0x0c]);
    EncodeBigEndian(w[0x0c..0x10]);
    EncodeBigEndian(w[0x30..0x38]);
    EncodeBigEndian(w[0x3c..0x40]);
    Pow256Values();
    FourZeros();
    EncodesField(w[0x40..0x80]);
  }

  lemma SerializesParsed(w: bytes)
    requires |w| == HEADER_LEN && Parse(w).Ok?
    ensures Valid(Parse(w).value) && Serialize(Parse(w).value) == Ok(w)
  {
    hide Parse, Wire, Valid;
    ParsedFields(w);
    var h := Parse(w).value;
    WireSlices(h);
    var v := Wire(h);
    SameSlices(v, w);
  }

  lemma SameSlices(v: bytes, w: bytes)
    requires |v| == |w| == HEADER_LEN
    requires v[0..4] == w[0..4] && v[4..6] == w[4..6] && v[6] == w[6] && v[7] == w[7]
    requires v[8..0x0c] == w[8..0x0c] && v[0x0c..0x10] == w[0x0c..0x10]
    requires AllZero(v[0x10..0x20]) && AllZero(w[0x10..0x20])
    requires v[0x20..0x30] == w[0x20..0x30] && v[0x30..0x38] == w[0x30..0x38] && v[0x38] == w[0x38]
    requires AllZero(v[0x39..0x3c]) && AllZero(w[0x39..0x3c])
    requires v[0x3c..0x40] == w[0x3c..0x40] && v[0x40..0x80] == w[0x40..0x80]
    ensures v == w
  {
    AllZeroIsZeros(v[0x10..0x20]);
    AllZeroIsZeros(w[0x10..0x20]);
    AllZeroIsZeros(v[0x39..0x3c]);
    AllZeroIsZeros(w[0x39..0x3c]);
    assert forall x: bytes :: |x| == HEADER_LEN ==>
      x == x[0..4] + x[4..6] + [x[6]] + [x[7]] + x[8..0x0c] + x[0x0c..0x10] + x[0x10..0x20] + x[0x20..0x30]
         + x[0x30..0x38] + [x[0x38]] + x[0x39..0x3c] + x[0x3c..0x40] + x[0x40..0x80];
  }

  // ----- the serializer's own shape: a zeroed buffer, filled field by field

  method CopyInto(a: array<byte>, at: nat, s: bytes)
    requires at + |s| <= a.Length
    modifies a
    ensures forall j :: 0 <= j < a.Length ==> a[j] == if at <= j < at + |s| then s[j - at] else old(a[j])
  {
    for i := 0 to |s|
      invariant forall j :: 0 <= j < a.Length ==> a[j] == if at <= j < at + i then s[j - at] else old(a[j])
    {
      a[at + i] := s[i];
    }
  }

  method FillHeader(h: Header) returns (r: Outcome<bytes>)
    requires Typed(h)
    ensures r == Serialize(h)
  {
    hide BigEndian, ValidUtf8;
    if Validate(h).Err? {
      return Err(Validate(h).error);
    }
    var b := new byte[HEADER_LEN](_ => 0);
    CopyInto(b, 0x00, MAGIC);
    CopyInto(b, 0x04, BigEndian(HEADER_LEN, 2));
    b[0x06] := h.formatVersion;
    b[0x07] := SUITE_ID;
    CopyInto(b, 0x08, BigEndian(h.chunkSize, 4));
    CopyInto(b, 0x20, h.salt);
    CopyInto(b, 0x30, BigEndian(h.metadataFrameLen, 8));
    b[0x38] := h.wrapSuite;
    CopyInto(b, 0x3c, BigEndian(h.keyFrameLen, 4));
    var field := FillObjectIdField(h.objectId);
    CopyInto(b, 0x40, field.value);
    assert b[..] == Wire(h);
    return Ok(b[..]);
  }
}
