/** What was sealed for a recipient opens for that recipient, byte for byte. */
module EnvelopeRoundTrip {
  import opened Bits
  import opened Outcomes
  import opened ByteStrings
  import opened Envelope
  import opened Stream
  import opened Kdf
  import opened InputOutput
  import opened Arithmetic
  import S = Seal
  import O = Open
  import H = EnvelopeHeader
  import K = KeyFrame
  import M = Metadata
  import W = Wrap

  /** Facts about a prepared seal, each from its own step. */
  ghost predicate Prepared(c: Primitives, o: S.Options, dek: bytes, rng: nat -> bytes, p: S.Prepared) {
    && W.Typed(o.recipients) && H.Valid(p.header) && K.AllTyped(p.slots) && K.Valid(p.slots)
    && |p.keyFrame| == p.header.keyFrameLen && p.keyFrame == K.Wire(p.slots) && p.header.objectId == o.objectId
    && |p.metadataFrame| == p.header.metadataFrameLen == |p.metadata| + TAG_LEN && p.header.chunkSize == o.chunkSize
    && p.metadataFrame == c.aeadSeal(p.keys.metadataKey, Zeros(12), p.metadata)
    && p.keys == DeriveKeys(c, dek, p.header.salt, c.sha256(H.Wire(p.header) + p.keyFrame))
    && M.ToCbor(Meta(o), o.chunkSize) == Ok(p.metadata)
    && Salt(c, dek, Binding(O.IdField(p.header), o.digest, p.metadata)) == Ok(p.header.salt)
    && W.WrapDek(c, dek, O.IdField(p.header), o.recipients, rng) == Ok(p.slots)
  }

  function Meta(o: S.Options): M.Meta {
    M.Meta(o.plaintextSize, o.digest)
  }

  lemma PrepareFacts(c: Primitives, o: S.Options, dek: bytes, rng: nat -> bytes)
    requires S.Typed(o) && Lawful(c) && |dek| == KEY_LEN && S.Prepare(c, o, dek, rng).Ok?
    ensures Prepared(c, o, dek, rng, S.Prepare(c, o, dek, rng).value)
  {
    hide Lawful, H.Validate, H.Wire, K.Valid, K.Wire, M.ToCbor, W.WrapSlots, SaltFrom;
    var p := S.Prepare(c, o, dek, rng).value;
    var id := H.ObjectIdField(o.objectId).value;
    W.WrappedIsTyped(c, dek, id, o.recipients, rng);
    S.SealedLength(c, p.keys.metadataKey, Zeros(12), p.metadata);
  }

  // ----- the front is authenticated

  /** The sealed bytes begin with the front. */
  ghost predicate Begins(data: bytes, p: S.Prepared)
    requires H.Valid(p.header)
  {
    At(data, 0, H.Wire(p.header)) && At(data, HEADER_LEN, p.keyFrame)
    && At(data, HEADER_LEN + |p.keyFrame|, p.metadataFrame)
  }

  lemma BeginsWithFront(data: bytes, p: S.Prepared, rest: bytes)
    requires H.Valid(p.header) && data == S.Front(p) + rest
    ensures Begins(data, p)
  {
    hide H.Wire;
  }

  lemma AuthenticatesSealed(c: Primitives, o: S.Options, dek: bytes, rng: nat -> bytes, p: S.Prepared, data: bytes,
                            i: nat, key: W.PrivateKey)
    requires S.Typed(o) && Lawful(c) && |dek| == KEY_LEN && Prepared(c, o, dek, rng, p) && Begins(data, p)
    requires i < |o.recipients| && W.Belongs(c, key, o.recipients[i])
    ensures O.Authenticate(c, Input(data, false), key) == Ok(O.Context(p.header, p.slots, Meta(o), p.keys))
  {
    hide H.Wire, K.Wire, K.Valid, H.Parse, K.Parse, H.Valid, K.AllTyped, M.ToCbor, M.FromCbor, W.WrapDek,
      W.UnwrapDek, SaltFrom;
    var input := Input(data, false);
    H.ParsesSerialized(p.header);
    K.ParsesSerialized(p.slots);
    assert O.ReadHeader(input) == Ok(p.header);
    assert O.ReadSlots(input, p.header) == Ok(p.slots);
    W.UnwrapsWrapped(c, dek, O.IdField(p.header), o.recipients, rng, i, key);
    assert O.KeysOf(c, input, p.header, dek) == p.keys;
    M.ReadsWritten(Meta(o), o.chunkSize);
    assert O.ReadMetadata(c, input, p.header, dek, p.keys) == Ok(Meta(o));
  }

  // ----- the frames decode

  function Frame(c: Primitives, key: bytes, plain: bytes, chunkSize: nat, total: nat, i: nat): bytes
    requires (i + 1) * chunkSize <= |plain|
  {
    c.aeadSeal(key, Nonce(i, i + 1 == total), Chunk(plain, chunkSize, i))
  }

  /** Where frame `i` stands among the frames. */
  function Position(i: nat, chunkSize: nat): nat {
    i * (chunkSize + TAG_LEN)
  }

  lemma {:induction false} FrameOf(c: Primitives, key: bytes, plain: bytes, chunkSize: nat, total: nat, n: nat, i: nat)
    requires Lawful(c) && i < n && n * chunkSize <= |plain|
    ensures (i + 1) * chunkSize <= |plain|
    ensures At(S.Frames(c, key, plain, chunkSize, total, n), Position(i, chunkSize),
               Frame(c, key, plain, chunkSize, total, i))
  {
    hide Lawful, Nonce, Chunk, S.Frames, At;
    var stride := chunkSize + TAG_LEN;
    MulMonotone(i + 1, n, chunkSize);
    MulMonotone(n - 1, n, chunkSize);
    var frame := c.aeadSeal(key, Nonce(i, i + 1 == total), Chunk(plain, chunkSize, i));
    var before := S.Frames(c, key, plain, chunkSize, total, n - 1);
    S.FramesLength(c, key, plain, chunkSize, total, n - 1);
    S.SealedLength(c, key, Nonce(i, i + 1 == total), Chunk(plain, chunkSize, i));
    S.FramesLast(c, key, plain, chunkSize, total, n);
    if i < n - 1 {
      FrameOf(c, key, plain, chunkSize, total, n - 1, i);
      AtPrefix(before, c.aeadSeal(key, Nonce(n - 1, n == total), Chunk(plain, chunkSize, n - 1)), i * stride, frame);
    } else {
      AtItself(frame);
      AtSuffix(before, frame, 0, frame);
    }
  }

  lemma FramesDecode(c: Primitives, key: bytes, plain: bytes, chunkSize: nat, total: nat, front: bytes, rest: bytes)
    requires Lawful(c) && |plain| == total * chunkSize
    ensures O.Decodes(c, key, Input(front + S.Frames(c, key, plain, chunkSize, total, total) + rest, false), |front|,
                      chunkSize, total, total, plain)
  {
    hide S.Frames, Nonce, Chunk, Lawful;
    var frames := S.Frames(c, key, plain, chunkSize, total, total);
    var input := Input(front + frames + rest, false);
    forall i | 0 <= i < total
      ensures O.DecodesAt(c, key, input, |front|, chunkSize, total, i, plain)
    {
      FrameOf(c, key, plain, chunkSize, total, total, i);
      var frame := c.aeadSeal(key, Nonce(i, i + 1 == total), Chunk(plain, chunkSize, i));
      AtSuffix(front, frames, i * (chunkSize + TAG_LEN), frame);
      AtPrefix(front + frames, rest, |front| + i * (chunkSize + TAG_LEN), frame);
      OpensOwnSeal(c, key, Nonce(i, i + 1 == total), Chunk(plain, chunkSize, i));
    }
  }

  lemma OpensOwnSeal(c: Primitives, key: bytes, nonce: bytes, plain: bytes)
    requires Lawful(c)
    ensures c.aeadOpen(key, nonce, c.aeadSeal(key, nonce, plain)) == Some(plain)
    ensures |c.aeadSeal(key, nonce, plain)| == |plain| + TAG_LEN
  {
  }

  // ----- the theorem

  /**
   Whenever sealing succeeds, opening the sealed bytes with the key of any listed recipient succeeds: it releases the
   same plaintext, reports the same header and key frame, and consumes every stored byte.
   */
  lemma SealThenOpen(c: Primitives, plain: bytes, o: S.Options, dek: bytes, rng: nat -> bytes, i: nat,
      key: W.PrivateKey)
    requires S.Typed(o) && Lawful(c) && |dek| == KEY_LEN && i < |o.recipients| && W.Belongs(c, key, o.recipients[i])
    requires S.Sealed(c, Input(plain, false), o, dek, rng).outcome.Ok?
    ensures
      var sealing := S.Sealed(c, Input(plain, false), o, dek, rng);
      var opening := O.Opened(c, Input(sealing.written, false), key);
      && opening.released == plain
      && opening.outcome == Ok(O.Report(sealing.outcome.value.header, sealing.outcome.value.slots, Meta(o),
                                        |sealing.written|, |plain|, o.digest))
  {
    hide Lawful, S.Prepare, O.Authenticate, S.Front, S.Frames, StoredSize, O.Decodes, H.Valid, O.Opened, S.Sealed;
    var data := S.Sealed(c, Input(plain, false), o, dek, rng).written;
    var frames, fill := SealedShape(c, plain, o, dek, rng);
    var p := S.Prepare(c, o, dek, rng).value;
    PrepareFacts(c, o, dek, rng);
    BeginsWithFront(data, p, frames + FOOTER + fill);
    AuthenticatesSealed(c, o, dek, rng, p, data, i, key);
    StoresSealed(c, plain, o, dek, rng, key);
    O.OpensStored(c, Input(data, false), key, plain);
    O.OpenAccepts(c, Input(data, false), key);
  }

  lemma SealedShape(c: Primitives, plain: bytes, o: S.Options, dek: bytes, rng: nat -> bytes)
    returns (frames: bytes, fill: bytes)
    requires S.Typed(o) && Lawful(c) && S.Sealed(c, Input(plain, false), o, dek, rng).outcome.Ok?
    ensures
      var s := S.Sealed(c, Input(plain, false), o, dek, rng);
      var total := o.plaintextSize / o.chunkSize;
      && S.Prepare(c, o, dek, rng).Ok?
      && o.chunkSize > 0 && total * o.chunkSize == o.plaintextSize == |plain| && c.sha256(plain) == o.digest
      && var p := S.Prepare(c, o, dek, rng).value;
      && frames == S.Frames(c, p.keys.payloadKey, plain, o.chunkSize, total, total)
      && s.written == S.Front(p) + (frames + FOOTER + fill)
      && fill == Zeros(|fill|)
      && |s.written| == S.FullSize(o, p) < U64_LIMIT
      && s.outcome.value.header == p.header && s.outcome.value.slots == p.slots
  {
    hide Lawful, S.Prepare, S.Frames, S.Front, S.FullSize, Stream.StoredSizeFromParts;
    S.SealOutcome(c, Input(plain, false), o, dek, rng);
    var p := S.Prepare(c, o, dek, rng).value;
    var total := o.plaintextSize / o.chunkSize;
    S.DeliveredAll(o, plain);
    frames := S.Frames(c, p.keys.payloadKey, plain, o.chunkSize, total, total);
    var s := S.Sealed(c, Input(plain, false), o, dek, rng);
    var body := S.Front(p) + frames + FOOTER;
    fill := Zeros(|s.written| - |body|);
  }

  lemma StoresSealed(c: Primitives, plain: bytes, o: S.Options, dek: bytes, rng: nat -> bytes, key: W.PrivateKey)
    requires S.Typed(o) && Lawful(c) && |dek| == KEY_LEN && S.Sealed(c, Input(plain, false), o, dek, rng).outcome.Ok?
    requires S.Prepare(c, o, dek, rng).Ok?
    ensures
      var p := S.Prepare(c, o, dek, rng).value;
      var input := Input(S.Sealed(c, Input(plain, false), o, dek, rng).written, false);
      var ctx := O.Context(p.header, p.slots, Meta(o), p.keys);
      O.Sound(ctx) && O.Stored(c, input, ctx, plain)
  {
    hide Lawful, S.Prepare, S.Frames, S.Front, StoredSize, S.Sealed, O.Decodes, H.Valid, Prepared, O.Sound;
    var p := S.Prepare(c, o, dek, rng).value;
    var data := S.Sealed(c, Input(plain, false), o, dek, rng).written;
    var total := o.plaintextSize / o.chunkSize;
    var frames, fill := SealedShape(c, plain, o, dek, rng);
    PrepareFacts(c, o, dek, rng);
    SoundSealed(c, o, dek, rng, p);
    S.FrontLength(p);
    S.FramesLength(c, p.keys.payloadKey, plain, o.chunkSize, total, total);
    FramesDecode(c, p.keys.payloadKey, plain, o.chunkSize, total, S.Front(p), FOOTER + fill);
    EndsWith(data, S.Front(p), frames, fill);
  }

  lemma SoundSealed(c: Primitives, o: S.Options, dek: bytes, rng: nat -> bytes, p: S.Prepared)
    requires S.Typed(o) && Prepared(c, o, dek, rng, p)
    ensures O.Sound(O.Context(p.header, p.slots, Meta(o), p.keys))
    ensures p.header.chunkSize == o.chunkSize && p.header.keyFrameLen == |p.keyFrame|
    ensures p.header.metadataFrameLen == |p.metadataFrame| == |p.metadata| + TAG_LEN
  {
    hide H.Valid, DeriveKeys, SaltFrom, W.WrapDek, H.Wire, K.Wire, K.Valid, K.AllTyped;
  }

  lemma EndsWith(data: bytes, front: bytes, frames: bytes, fill: bytes)
    requires data == front + (frames + FOOTER + fill)
    ensures data == front + frames + (FOOTER + fill)
    ensures var at := |front| + |frames|; data[at..at + |FOOTER|] == FOOTER && data[at + |FOOTER|..] == fill
  {
  }

  // ----- where everything stands

  /** The parts of a sealed object, at their offsets; `i` is any of its `n` chunks. */
  ghost predicate LaidOut(c: Primitives, w: bytes, p: S.Prepared, plain: bytes, chunkSize: nat, n: nat, i: nat)
    requires H.Valid(p.header) && chunkSize > 0 && (i + 1) * chunkSize <= |plain|
  {
    var start := 128 + |p.keyFrame| + |p.metadata| + 16;
    var end := start + Position(n, chunkSize);
    && At(w, 0, H.Wire(p.header)) && At(w, 128, p.keyFrame)
    && At(w, 128 + |p.keyFrame|, c.aeadSeal(p.keys.metadataKey, Zeros(12), p.metadata))
    && At(w, start + Position(i, chunkSize), Frame(c, p.keys.payloadKey, plain, chunkSize, n, i))
    && At(w, end, Ascii("REMO_STREAM_END."))
    && end + 16 <= |w| < end + 16 + chunkSize && |w| % chunkSize == 0 && At(w, end + 16, Zeros(|w| - end - 16))
  }

  /**
   A sealed object is header, key frame, metadata frame, one frame for each chunk under its own index, footer and zero
   fill to a whole chunk. The header and the frames are those of the options: `Prepared` says which.
   */
  lemma SealedLayout(c: Primitives, plain: bytes, o: S.Options, dek: bytes, rng: nat -> bytes, i: nat)
    requires S.Typed(o) && Lawful(c) && |dek| == KEY_LEN && S.Sealed(c, Input(plain, false), o, dek, rng).outcome.Ok?
    requires i < |plain| / o.chunkSize
    ensures
      var p := S.Prepare(c, o, dek, rng).value;
      && Prepared(c, o, dek, rng, p) && o.chunkSize > 0 && (i + 1) * o.chunkSize <= |plain|
      && LaidOut(c, S.Sealed(c, Input(plain, false), o, dek, rng).written, p, plain, o.chunkSize,
                 |plain| / o.chunkSize, i)
  {
    hide Lawful, S.Prepare, S.Frames, StoredSize, S.Sealed, H.Valid, Prepared, H.Wire, S.FullSize, Frame, Position, At,
      S.Front, Ascii;
    var frames, fill := SealedShape(c, plain, o, dek, rng);
    var p := S.Prepare(c, o, dek, rng).value;
    var w := S.Sealed(c, Input(plain, false), o, dek, rng).written;
    var n := o.plaintextSize / o.chunkSize;
    PrepareFacts(c, o, dek, rng);
    SoundSealed(c, o, dek, rng, p);
    MetadataSealed(c, o, dek, rng, p);
    S.FrontLength(p);
    FramesEnd(c, p.keys.payloadKey, plain, o.chunkSize, n);
    MulMonotone(i + 1, n, o.chunkSize);
    FrameOf(c, p.keys.payloadKey, plain, o.chunkSize, n, n, i);
    FullSizeFits(o, p, n);
    PartsStand(c, w, p, frames, fill, Position(i, o.chunkSize), Frame(c, p.keys.payloadKey, plain, o.chunkSize, n, i));
  }

  lemma MetadataSealed(c: Primitives, o: S.Options, dek: bytes, rng: nat -> bytes, p: S.Prepared)
    requires Prepared(c, o, dek, rng, p)
    ensures p.metadataFrame == c.aeadSeal(p.keys.metadataKey, Zeros(12), p.metadata)
  {
    hide H.Valid, DeriveKeys, SaltFrom, W.WrapDek, H.Wire, K.Wire, K.Valid, K.AllTyped, M.ToCbor;
  }

  lemma FramesEnd(c: Primitives, key: bytes, plain: bytes, chunkSize: nat, n: nat)
    requires Lawful(c) && n * chunkSize <= |plain|
    ensures |S.Frames(c, key, plain, chunkSize, n, n)| == Position(n, chunkSize)
  {
    hide Lawful, S.Frames;
    S.FramesLength(c, key, plain, chunkSize, n, n);
  }

  lemma FullSizeFits(o: S.Options, p: S.Prepared, n: nat)
    requires o.chunkSize > 0 && n == o.plaintextSize / o.chunkSize
    ensures
      var end := 128 + |p.keyFrame| + |p.metadata| + 16 + Position(n, o.chunkSize);
      end + 16 <= S.FullSize(o, p) < end + 16 + o.chunkSize && S.FullSize(o, p) % o.chunkSize == 0
  {
  }

  lemma PartsStand(c: Primitives, w: bytes, p: S.Prepared, frames: bytes, fill: bytes, at: nat, frame: bytes)
    requires H.Valid(p.header) && w == S.Front(p) + (frames + FOOTER + fill) && At(frames, at, frame)
    ensures
      var start := 128 + |p.keyFrame| + |p.metadataFrame|;
      && At(w, 0, H.Wire(p.header)) && At(w, 128, p.keyFrame) && At(w, 128 + |p.keyFrame|, p.metadataFrame)
      && At(w, start + at, frame) && At(w, start + |frames|, Ascii("REMO_STREAM_END."))
      && At(w, start + |frames| + 16, fill)
  {
    hide H.Wire, H.Valid, At;
    var wire := H.Wire(p.header);
    var rest := frames + FOOTER + fill;
    assert FOOTER == Ascii("REMO_STREAM_END.");
    AtItself(S.Front(p));
    AtPrefix(S.Front(p), rest, 0, S.Front(p));
    AtConcat(w, 0, wire + p.keyFrame, p.metadataFrame);
    AtConcat(w, 0, wire, p.keyFrame);
    AtItself(rest);
    AtSuffix(S.Front(p), rest, 0, rest);
    AtConcat(w, |S.Front(p)|, frames + FOOTER, fill);
    AtConcat(w, |S.Front(p)|, frames, FOOTER);
    AtPrefix(frames, FOOTER + fill, at, frame);
    assert frames + (FOOTER + fill) == rest;
    AtSuffix(S.Front(p), rest, at, frame);
  }
}
