/** Sealing a plaintext object: everything is prepared before the first byte goes out, then frames are streamed. */
module Seal {
  import opened Bits
  import opened Outcomes
  import opened ByteStrings
  import opened Utf8
  import opened Envelope
  import opened Stream
  import opened Kdf
  import opened InputOutput
  import opened Arithmetic
  import H = EnvelopeHeader
  import K = KeyFrame
  import M = Metadata
  import W = Wrap

  datatype Options = Options(
    chunkSize: nat, objectId: bytes, plaintextSize: nat, digest: bytes,
    allowSingle: bool, recipients: seq<W.PublicKey>)

  predicate Typed(o: Options) {
    && o.chunkSize < U32_LIMIT && ValidUtf8(o.objectId) && o.plaintextSize < U64_LIMIT && |o.digest| == 32
    && W.Typed(o.recipients)
  }

  // ----- before the first byte

  /** Distinct epochs, slot indices increasing in the order given. */
  predicate Ordered(rs: seq<W.PublicKey>) {
    && (forall i, j :: 0 <= i < j < |rs| ==> rs[i].epochId != rs[j].epochId)
    && (forall i :: 1 <= i < |rs| ==> rs[i - 1].index < rs[i].index)
  }

  predicate RecipientsOk(rs: seq<W.PublicKey>) {
    Ordered(rs) && forall i :: 0 <= i < |rs| ==> !AllZero(rs[i].epochId)
  }

  datatype Prepared = Prepared(
    header: H.Header, slots: seq<K.Slot>, keys: Keys, metadata: bytes, keyFrame: bytes, metadataFrame: bytes)

  function Prepare(c: Primitives, o: Options, dek: bytes, rng: nat -> bytes): (r: Outcome<Prepared>)
    requires Typed(o) && Lawful(c)
    ensures r.Ok? ==> H.Valid(r.value.header)
    ensures r.Ok? ==> o.chunkSize > 0 && o.plaintextSize > 0 && o.plaintextSize % o.chunkSize == 0
  {
    var id := H.ObjectIdField(o.objectId);
    if ValidateChunkSize(o.chunkSize).Err? then Err(InvalidChunkSize)
    else if id.Err? then Err(id.error)
    else if o.plaintextSize == 0 || o.plaintextSize % o.chunkSize != 0 then Err(InvalidInput)
    else if |o.recipients| == 0 || (|o.recipients| == 1 && !o.allowSingle) then Err(InvalidInput)
    else
      var metadata := M.ToCbor(M.Meta(o.plaintextSize, o.digest), o.chunkSize);
      if metadata.Err? then Err(metadata.error)
      else
        var salt := Salt(c, dek, Binding(id.value, o.digest, metadata.value));
        SaltIsNonzero(c, dek, Binding(id.value, o.digest, metadata.value), 0);
        if salt.Err? then Err(salt.error)
        else
          var slots := W.WrapDek(c, dek, id.value, o.recipients, rng);
          if slots.Err? then Err(slots.error)
          else Assemble(c, o, dek, metadata.value, salt.value, slots.value)
  }

  function NewHeader(o: Options, salt: bytes, metadataLen: nat, keyFrameLen: nat): H.Header {
    H.Header(H.FORMAT_VERSION, o.chunkSize, salt, metadataLen + TAG_LEN, o.objectId, H.WRAP_SUITE_XWING, keyFrameLen)
  }

  function Assemble(c: Primitives, o: Options, dek: bytes, metadata: bytes, salt: bytes, slots: seq<K.Slot>)
    : (r: Outcome<Prepared>)
    requires Typed(o) && |salt| == SALT_LEN
    ensures r.Ok? ==> H.Valid(r.value.header)
  {
    var keyFrame := K.Serialize(slots);
    if keyFrame.Err? then Err(keyFrame.error)
    else if |keyFrame.value| >= U32_LIMIT then Err(InvalidKeyFrameLength)
    else
      var header := NewHeader(o, salt, |metadata|, |keyFrame.value|);
      if H.Validate(header).Err? then Err(H.Validate(header).error)
      else
        var keys := DeriveKeys(c, dek, salt, c.sha256(H.Wire(header) + keyFrame.value));
        Ok(Prepared(header, slots, keys, metadata, keyFrame.value, c.aeadSeal(keys.metadataKey, Zeros(12), metadata)))
  }

  // ----- the sealed bytes

  function Front(p: Prepared): bytes
    requires H.Valid(p.header)
  {
    H.Wire(p.header) + p.keyFrame + p.metadataFrame
  }

  /** The first `n` of `total` payload frames. */
  function Frames(c: Primitives, key: bytes, plain: bytes, chunkSize: nat, total: nat, n: nat): bytes
    requires n * chunkSize <= |plain|
  {
    if n == 0 then []
    else
      MulMonotone(n - 1, n, chunkSize);
      Frames(c, key, plain, chunkSize, total, n - 1)
      + c.aeadSeal(key, Nonce(n - 1, n == total), Chunk(plain, chunkSize, n - 1))
  }

  lemma FramesLast(c: Primitives, key: bytes, plain: bytes, chunkSize: nat, total: nat, n: nat)
    requires 0 < n && n * chunkSize <= |plain|
    ensures (n - 1) * chunkSize <= |plain|
    ensures Frames(c, key, plain, chunkSize, total, n)
         == Frames(c, key, plain, chunkSize, total, n - 1)
          + c.aeadSeal(key, Nonce(n - 1, n == total), Chunk(plain, chunkSize, n - 1))
  {
    hide Nonce;
    MulMonotone(n - 1, n, chunkSize);
  }

  lemma SealedLength(c: Primitives, key: bytes, nonce: bytes, plain: bytes)
    requires Lawful(c)
    ensures |c.aeadSeal(key, nonce, plain)| == |plain| + TAG_LEN
  {
  }

  lemma {:induction false} FramesLength(c: Primitives, key: bytes, plain: bytes, chunkSize: nat, total: nat, n: nat)
    requires Lawful(c) && n * chunkSize <= |plain|
    ensures |Frames(c, key, plain, chunkSize, total, n)| == n * (chunkSize + TAG_LEN)
  {
    hide Lawful, Chunk, Nonce, BigEndian;
    if n > 0 {
      MulMonotone(n - 1, n, chunkSize);
      FramesLength(c, key, plain, chunkSize, total, n - 1);
      SealedLength(c, key, Nonce(n - 1, n == total), Chunk(plain, chunkSize, n - 1));
      Successor(n - 1, chunkSize + TAG_LEN);
    }
  }

  datatype Report = Report(
    header: H.Header, slots: seq<K.Slot>, metadataLen: nat, metadataFrameLen: nat,
    storedSize: nat, storedBlocks: nat, storedDigest: bytes, plaintextSize: nat, plaintextDigest: bytes)

  /** What a seal writes, and how it ends. */
  datatype Sealing = Sealing(written: bytes, outcome: Outcome<Report>)

  function Sealed(c: Primitives, input: Input, o: Options, dek: bytes, rng: nat -> bytes): Sealing
    requires Typed(o) && Lawful(c)
  {
    var prepared := Prepare(c, o, dek, rng);
    if prepared.Err? then Sealing([], Err(prepared.error)) else Payload(c, input, o, prepared.value)
  }

  /** How many whole chunks of the `total` the input delivers. */
  function Delivered(data: bytes, chunkSize: nat, total: nat): (n: nat)
    requires chunkSize > 0
    ensures n <= total && n * chunkSize <= |data|
    ensures n < total ==> |data| < (n + 1) * chunkSize
  {
    QuoRem(|data|, chunkSize);
    Successor(Quo(|data|, chunkSize), chunkSize);
    if Quo(|data|, chunkSize) <= total then Quo(|data|, chunkSize)
    else
      MulMonotone(total, Quo(|data|, chunkSize), chunkSize);
      total
  }

  /** The bytes of those chunks. */
  function DeliveredBytes(data: bytes, chunkSize: nat, total: nat): bytes
    requires chunkSize > 0
  {
    data[..Delivered(data, chunkSize, total) * chunkSize]
  }

  function Payload(c: Primitives, input: Input, o: Options, p: Prepared): Sealing
    requires H.Valid(p.header) && o.chunkSize > 0 && o.plaintextSize % o.chunkSize == 0
  {
    var total := o.plaintextSize / o.chunkSize;
    var n := Delivered(input.data, o.chunkSize, total);
    var body := Front(p) + Frames(c, p.keys.payloadKey, input.data, o.chunkSize, total, n);
    if n < total then Sealing(body, Err(if input.broken then Io else UnexpectedEof))
    else
      DivMod(o.plaintextSize, o.chunkSize);
      if c.sha256(input.data[..o.plaintextSize]) != o.digest then Sealing(body, Err(PlaintextDigestMismatch))
      else if o.plaintextSize < |input.data| then Sealing(body, Err(PlaintextSizeMismatch))
      else if input.broken then Sealing(body, Err(Io))
      else Close(c, o, p, body + FOOTER)
  }

  function Close(c: Primitives, o: Options, p: Prepared, body: bytes): Sealing
    requires o.chunkSize > 0
  {
    var size := StoredSizeFromParts(o.chunkSize, |p.keyFrame|, |p.metadata| + TAG_LEN, o.plaintextSize);
    if size.Err? then Sealing(body, Err(size.error))
    else if size.value < |body| then Sealing(body, Err(SizeOverflow))
    else
      var all := body + Zeros(size.value - |body|);
      Sealing(all, Ok(Report(p.header, p.slots, |p.metadata|, |p.metadata| + TAG_LEN, size.value,
                             Quo(size.value, o.chunkSize), c.sha256(all), o.plaintextSize, o.digest)))
  }

  // ----- when a seal succeeds, and what a failed one leaves behind

  /** Header, key frame, metadata frame and the first `n` payload frames, nothing more. */
  ghost predicate OnlyFrames(c: Primitives, input: Input, o: Options, p: Prepared, written: bytes, n: nat)
    requires H.Valid(p.header) && o.chunkSize > 0
  {
    && n <= o.plaintextSize / o.chunkSize && n * o.chunkSize <= |input.data|
    && written == Front(p) + Frames(c, p.keys.payloadKey, input.data, o.chunkSize, o.plaintextSize / o.chunkSize, n)
  }

  /** The stored size in closed form, unbounded. */
  function FullSize(o: Options, p: Prepared): nat
    requires o.chunkSize > 0
  {
    StoredSize(|p.keyFrame|, |p.metadata| + TAG_LEN, o.chunkSize, o.plaintextSize / o.chunkSize)
  }

  lemma FrontLength(p: Prepared)
    requires H.Valid(p.header)
    ensures |Front(p)| == HEADER_LEN + |p.keyFrame| + |p.metadataFrame|
  {
    hide H.Wire;
  }

  lemma MetadataFrameLength(c: Primitives, o: Options, dek: bytes, rng: nat -> bytes)
    requires Typed(o) && Lawful(c) && Prepare(c, o, dek, rng).Ok?
    ensures var p := Prepare(c, o, dek, rng).value; |p.metadataFrame| == |p.metadata| + TAG_LEN
  {
    hide Lawful, H.Validate, H.Wire, K.Serialize, M.ToCbor, W.WrapDek, Salt;
    var p := Prepare(c, o, dek, rng).value;
    SealedLength(c, p.keys.metadataKey, Zeros(12), p.metadata);
  }

  /** All the chunks are delivered exactly when the data are long enough. */
  lemma DeliveredAll(o: Options, data: bytes)
    requires o.chunkSize > 0 && o.plaintextSize % o.chunkSize == 0
    ensures var total := o.plaintextSize / o.chunkSize;
      && total * o.chunkSize == o.plaintextSize
      && (Delivered(data, o.chunkSize, total) == total <==> o.plaintextSize <= |data|)
  {
    hide Delivered;
    var total := o.plaintextSize / o.chunkSize;
    DivMod(o.plaintextSize, o.chunkSize);
    var n := Delivered(data, o.chunkSize, total);
    if n < total {
      MulMonotone(n + 1, total, o.chunkSize);
    }
  }

  /** Everything a report says of the input and of the bytes written. */
  ghost predicate Reports(c: Primitives, plain: bytes, p: Prepared, written: bytes, r: Report) {
    && r.header == p.header && r.slots == p.slots
    && r.metadataLen == |p.metadata| && r.metadataFrameLen == |p.metadataFrame|
    && r.storedSize == |written| && r.storedDigest == c.sha256(written)
    && r.plaintextSize == |plain| && r.plaintextDigest == c.sha256(plain)
  }

  /**
   A prepared seal succeeds exactly when the input is the announced plaintext and the stored size fits 64 bits; it
   has then written that many bytes and reports what it read and wrote. When only the size does not fit, it fails
   after all frames and the footer are out; every other failure leaves whole frames and no footer.
   */
  lemma SealOutcome(c: Primitives, input: Input, o: Options, dek: bytes, rng: nat -> bytes)
    requires Typed(o) && Lawful(c) && Prepare(c, o, dek, rng).Ok?
    ensures
      var p := Prepare(c, o, dek, rng).value;
      var s := Sealed(c, input, o, dek, rng);
      var total := o.plaintextSize / o.chunkSize;
      var announced := |input.data| == o.plaintextSize && !input.broken && c.sha256(input.data) == o.digest;
      var fits := FullSize(o, p) < U64_LIMIT;
      && (s.outcome.Ok? <==> announced && fits)
      && (s.outcome.Ok? ==> Reports(c, input.data, p, s.written, s.outcome.value) && |s.written| == FullSize(o, p))
      && (s.outcome.Err? ==>
          if announced && !fits then
            && s.outcome.error == SizeOverflow
            && exists body: bytes :: OnlyFrames(c, input, o, p, body, total) && s.written == body + FOOTER
          else OnlyFrames(c, input, o, p, s.written, Delivered(input.data, o.chunkSize, total)))
      && (fits ==> |s.written| < U64_LIMIT)
  {
    hide Lawful, Prepare, Frames, Front, Delivered, StoredSizeFromParts, StoredSize;
    var p := Prepare(c, o, dek, rng).value;
    var total := o.plaintextSize / o.chunkSize;
    DeliveredAll(o, input.data);
    var n := Delivered(input.data, o.chunkSize, total);
    var frames := Frames(c, p.keys.payloadKey, input.data, o.chunkSize, total, n);
    FrontLength(p);
    MetadataFrameLength(c, o, dek, rng);
    FramesLength(c, p.keys.payloadKey, input.data, o.chunkSize, total, n);
    MulMonotone(n, total, o.chunkSize + TAG_LEN);
    SizeCovers(o, p, total);
    StoredSizeClosedForm(o.chunkSize, |p.keyFrame|, |p.metadata| + TAG_LEN, total);
    assert OnlyFrames(c, input, o, p, Front(p) + frames, n);
    if n == total && |input.data| == o.plaintextSize {
      assert input.data[..o.plaintextSize] == input.data;
    }
  }

  /** Why a prepared seal fails, in the order of its checks. */
  function FailureOf(c: Primitives, input: Input, o: Options): Error {
    if |input.data| < o.plaintextSize then (if input.broken then Io else UnexpectedEof)
    else if c.sha256(input.data[..o.plaintextSize]) != o.digest then PlaintextDigestMismatch
    else if o.plaintextSize < |input.data| then PlaintextSizeMismatch
    else if input.broken then Io
    else SizeOverflow
  }

  lemma SealFailure(c: Primitives, input: Input, o: Options, dek: bytes, rng: nat -> bytes)
    requires Typed(o) && Lawful(c) && Prepare(c, o, dek, rng).Ok? && Sealed(c, input, o, dek, rng).outcome.Err?
    ensures Sealed(c, input, o, dek, rng).outcome == Err(FailureOf(c, input, o))
  {
    hide Lawful, Prepare, Frames, Front, Delivered, StoredSizeFromParts, StoredSize;
    var p := Prepare(c, o, dek, rng).value;
    var total := o.plaintextSize / o.chunkSize;
    DeliveredAll(o, input.data);
    StoredSizeClosedForm(o.chunkSize, |p.keyFrame|, |p.metadata| + TAG_LEN, total);
  }

  lemma SizeCovers(o: Options, p: Prepared, total: nat)
    requires o.chunkSize > 0 && total == o.plaintextSize / o.chunkSize
    ensures FullSize(o, p)
         >= HEADER_LEN + |p.keyFrame| + |p.metadata| + TAG_LEN + total * (o.chunkSize + TAG_LEN) + |FOOTER|
  {
  }

  /** The reported number of blocks, in chunks, is what was written. */
  lemma ReportedBlocks(c: Primitives, input: Input, o: Options, dek: bytes, rng: nat -> bytes)
    requires Typed(o) && Lawful(c) && Sealed(c, input, o, dek, rng).outcome.Ok?
    ensures var s := Sealed(c, input, o, dek, rng);
      s.outcome.value.storedBlocks * o.chunkSize == |s.written|
  {
    hide Lawful, Prepare, Frames, Front, Delivered, StoredSizeFromParts;
    var p := Prepare(c, o, dek, rng).value;
    var size := StoredSizeFromParts(o.chunkSize, |p.keyFrame|, |p.metadata| + TAG_LEN, o.plaintextSize).value;
    StoredSizeIsWhole(o.chunkSize, |p.keyFrame|, |p.metadata| + TAG_LEN, o.plaintextSize);
    WholeQuo(size, o.chunkSize);
  }

  lemma StoredSizeIsWhole(chunkSize: nat, keyFrameLen: nat, metadataFrameLen: nat, plaintextSize: nat)
    requires chunkSize > 0
    ensures var r := StoredSizeFromParts(chunkSize, keyFrameLen, metadataFrameLen, plaintextSize);
      r.Ok? ==> r.value % chunkSize == 0
  {
    hide PayloadFrameLen, FooterEnd;
    var payload := PayloadFrameLen(plaintextSize, chunkSize);
    if payload.Ok? {
      var end := FooterEnd(keyFrameLen, metadataFrameLen, payload.value);
      if end.Ok? && end.value % chunkSize != 0 {
        CeilIsMultiple(end.value, chunkSize);
      }
    }
  }

  lemma WholeQuo(n: nat, c: nat)
    requires c > 0 && n % c == 0
    ensures Quo(n, c) * c == n
  {
    QuoRem(n, c);
  }
}
