/**
  Seals at given inputs: under some lawful primitives objects are sealed and opened, and a
  size just short of 2^64 leaves a footer behind a failed seal.
 */
module SealExamples {
  import opened Bits
  import opened Outcomes
  import opened ByteStrings
  import opened Utf8
  import opened Arithmetic
  import opened Envelope
  import opened Stream
  import opened Kdf
  import opened InputOutput
  import opened Seal
  import opened SealConditions
  import H = EnvelopeHeader
  import K = KeyFrame
  import M = Metadata
  import O = Open
  import R = EnvelopeRoundTrip
  import W = Wrap

  /** A plaintext of zero bytes for one recipient whose epoch has no label. */
  ghost function ForOne(chunkSize: nat, chunks: nat): Options {
    Options(chunkSize, [65], chunks * chunkSize, Zeros(32), true, [W.PublicKey(0, Ones(16), [], [])])
  }

  predicate SizesOk(chunkSize: nat, chunks: nat) {
    && 0 < chunkSize < U32_LIMIT && chunkSize % 512 == 0
    && 0 < chunks && chunks * (chunkSize + TAG_LEN) < U64_LIMIT
  }

  lemma ForOneIsTyped(chunkSize: nat, chunks: nat)
    requires SizesOk(chunkSize, chunks)
    ensures var o := ForOne(chunkSize, chunks);
      && Typed(o) && 0 < o.plaintextSize && o.plaintextSize % chunkSize == 0 && o.plaintextSize / chunkSize == chunks
      && M.Validate(M.Meta(o.plaintextSize, o.digest), chunkSize).Ok?
  {
    hide ValidUtf8;
    AsciiIsUtf8([65]);
    MultipleMod(chunks, chunkSize);
    DivUnique(chunks * chunkSize, chunkSize, chunks, 0);
    assert chunks * (chunkSize + TAG_LEN) == chunks * chunkSize + TAG_LEN * chunks;
    MulMonotone(1, chunks, chunkSize);
  }

  lemma SaltOfOnes(dek: bytes, b: Binding)
    ensures Salt(Transparent(), dek, b).Ok?
  {
    var salt := SaltAt(Transparent(), dek, b, 0);
    assert salt[0] == 1;
  }

  lemma ForOneIsSealable(chunkSize: nat, chunks: nat, dek: bytes, rng: nat -> bytes)
    requires SizesOk(chunkSize, chunks) && Typed(ForOne(chunkSize, chunks))
    ensures Sealable(Transparent(), ForOne(chunkSize, chunks), dek, rng)
  {
    hide Salt, M.Validate, ValidUtf8, W.WrapInfo;
    var c, o := Transparent(), ForOne(chunkSize, chunks);
    ForOneIsTyped(chunkSize, chunks);
    assert H.ObjectIdOk(o.objectId);
    var id := H.ObjectIdField(o.objectId).value;
    SaltOfOnes(dek, Binding(id, o.digest, M.ToCbor(M.Meta(o.plaintextSize, o.digest), chunkSize).value));
    assert K.LabelOk([]);
  }

  /** The key frame and the metadata of a prepared seal take little room. */
  lemma FrontIsShort(c: Primitives, o: Options, dek: bytes, rng: nat -> bytes)
    requires Typed(o) && Lawful(c) && Prepare(c, o, dek, rng).Ok?
    ensures var p := Prepare(c, o, dek, rng).value; |p.keyFrame| <= KEY_FRAME_MAX_LEN && |p.metadata| <= 128
  {
    hide Lawful, H.Validate, H.Wire, K.Valid, K.Wire, M.ToCbor, W.WrapSlots, SaltFrom, DeriveKeys, H.ObjectIdField;
    MetadataIsShort(M.Meta(o.plaintextSize, o.digest), o.chunkSize);
  }

  /** Such an object is prepared, with a short front. */
  lemma ForOneIsPrepared(chunkSize: nat, chunks: nat, dek: bytes, rng: nat -> bytes)
    requires SizesOk(chunkSize, chunks) && |dek| == KEY_LEN
    ensures Typed(ForOne(chunkSize, chunks)) && Lawful(Transparent())
    ensures var r := Prepare(Transparent(), ForOne(chunkSize, chunks), dek, rng);
      r.Ok? && |r.value.keyFrame| <= KEY_FRAME_MAX_LEN && |r.value.metadata| <= 128
  {
    hide Prepare, Lawful, Transparent, Sealable;
    TransparentIsLawful();
    ForOneIsTyped(chunkSize, chunks);
    ForOneIsSealable(chunkSize, chunks, dek, rng);
    PrepareSucceedsIff(Transparent(), ForOne(chunkSize, chunks), dek, rng);
    FrontIsShort(Transparent(), ForOne(chunkSize, chunks), dek, rng);
  }

  /** Small objects are sealed, and the recipient opens them. */
  lemma SmallObjectsAreSealed(chunkSize: nat, chunks: nat, dek: bytes, rng: nat -> bytes)
    requires SizesOk(chunkSize, chunks) && |dek| == KEY_LEN
    requires chunks * (chunkSize + TAG_LEN) <= U32_LIMIT
    ensures Typed(ForOne(chunkSize, chunks)) && Lawful(Transparent())
    ensures
      var plain := Zeros(chunks * chunkSize);
      var s := Sealed(Transparent(), Input(plain, false), ForOne(chunkSize, chunks), dek, rng);
      && s.outcome.Ok?
      && O.Opened(Transparent(), Input(s.written, false), W.PrivateKey(Ones(16), [])).released == plain
  {
    hide Prepare, Lawful, Sealed, O.Opened;
    var c, o, plain := Transparent(), ForOne(chunkSize, chunks), Zeros(chunks * chunkSize);
    ForOneIsTyped(chunkSize, chunks);
    ForOneIsPrepared(chunkSize, chunks, dek, rng);
    SealOutcome(c, Input(plain, false), o, dek, rng);
    R.SealThenOpen(c, plain, o, dek, rng, 0, W.PrivateKey(Ones(16), []));
  }

  /** Chunks of 2^20 bytes, and so many that the frames end 983056 bytes below 2^64. */
  const LARGE_CHUNK: nat := 0x10_0000
  const MANY: nat := 17591917613055

  lemma JustBelow(keyFrameLen: nat, metadataFrameLen: nat)
    requires keyFrameLen <= KEY_FRAME_MAX_LEN && metadataFrameLen <= 144
    ensures SizesOk(LARGE_CHUNK, MANY)
    ensures Offset(keyFrameLen, metadataFrameLen, LARGE_CHUNK, MANY) + |FOOTER| < U64_LIMIT
    ensures StoredSize(keyFrameLen, metadataFrameLen, LARGE_CHUNK, MANY) >= U64_LIMIT
  {
  }

  /**
   The frames and the footer of this object end below 2^64, and rounding up to whole chunks reaches it: all is written,
   footer included, and then the seal fails.
   */
  lemma FooterOfFailedSeal(dek: bytes, rng: nat -> bytes)
    requires |dek| == KEY_LEN
    ensures
      var c, o := Transparent(), ForOne(LARGE_CHUNK, MANY);
      && Typed(o) && Lawful(c) && Prepare(c, o, dek, rng).Ok?
      && var input := Input(Zeros(o.plaintextSize), false);
      && var s := Sealed(c, input, o, dek, rng);
      && s.outcome == Err(SizeOverflow) && |s.written| < U64_LIMIT
      && exists body: bytes ::
           OnlyFrames(c, input, o, Prepare(c, o, dek, rng).value, body, MANY) && s.written == body + FOOTER
  {
    hide Prepare, Lawful, Sealed, Transparent, OnlyFrames, StoredSize, Offset, SizesOk;
    JustBelow(0, 0);
    ForOneIsTyped(LARGE_CHUNK, MANY);
    ForOneIsPrepared(LARGE_CHUNK, MANY, dek, rng);
    var c, o := Transparent(), ForOne(LARGE_CHUNK, MANY);
    var p := Prepare(c, o, dek, rng).value;
    JustBelow(|p.keyFrame|, |p.metadata| + TAG_LEN);
    var input := Input(Zeros(o.plaintextSize), false);
    TransparentDigest(input.data);
    SealOutcome(c, input, o, dek, rng);
    var s := Sealed(c, input, o, dek, rng);
    var body: bytes :| OnlyFrames(c, input, o, p, body, MANY) && s.written == body + FOOTER;
    BodyLength(c, input, o, dek, rng, body, MANY);
  }

  lemma TransparentDigest(data: bytes)
    ensures Transparent().sha256(data) == Zeros(32)
  {
  }

  lemma BodyLength(c: Primitives, input: Input, o: Options, dek: bytes, rng: nat -> bytes, body: bytes, n: nat)
    requires Typed(o) && Lawful(c) && Prepare(c, o, dek, rng).Ok?
    requires OnlyFrames(c, input, o, Prepare(c, o, dek, rng).value, body, n)
    ensures var p := Prepare(c, o, dek, rng).value;
      |body| == Offset(|p.keyFrame|, |p.metadata| + TAG_LEN, o.chunkSize, n)
  {
    hide Prepare, Lawful, Front, Frames;
    var p := Prepare(c, o, dek, rng).value;
    FrontLength(p);
    MetadataFrameLength(c, o, dek, rng);
    FramesLength(c, p.keys.payloadKey, input.data, o.chunkSize, o.plaintextSize / o.chunkSize, n);
  }
}
