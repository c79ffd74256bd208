/** Opening a whole envelope: authenticate the front, release chunk after verified chunk, then check the tail. */
module Open {
  import opened Bits
  import opened Outcomes
  import opened ByteStrings
  import opened Envelope
  import opened Stream
  import opened Kdf
  import opened InputOutput
  import opened Arithmetic
  import H = EnvelopeHeader
  import K = KeyFrame
  import M = Metadata
  import W = Wrap

  // ----- the authenticated front

  /** What a recipient knows once the metadata frame has been authenticated. */
  datatype Context = Context(header: H.Header, slots: seq<K.Slot>, meta: M.Meta, keys: Keys)

  /** Header and metadata are valid and fit each other. */
  predicate Sound(ctx: Context) {
    && H.Valid(ctx.header) && ctx.header.chunkSize > 0
    && M.Typed(ctx.meta) && M.Validate(ctx.meta, ctx.header.chunkSize).Ok?
  }

  function ReadHeader(input: Input): (r: Outcome<H.Header>)
    ensures r.Ok? ==> H.Valid(r.value) && r.value.chunkSize > 0
  {
    var w := ReadAt(input, 0, HEADER_LEN);
    if w.Err? then Err(w.error)
    else
      var h := H.Parse(w.value);
      if h.Ok? then H.SerializesParsed(w.value); h else h
  }

  function ReadSlots(input: Input, h: H.Header): (r: Outcome<seq<K.Slot>>)
    ensures r.Ok? ==> K.AllTyped(r.value)
  {
    var b := ReadAt(input, HEADER_LEN, h.keyFrameLen);
    if b.Err? then Err(b.error)
    else
      var slots := K.Parse(b.value);
      if slots.Ok? then K.SerializesParsed(b.value); slots else slots
  }

  /** Where the metadata frame ends and the payload begins. */
  function PayloadStart(h: H.Header): nat {
    HEADER_LEN + h.keyFrameLen + h.metadataFrameLen
  }

  function IdField(h: H.Header): (id: bytes)
    requires H.Valid(h)
    ensures |id| == 64
  {
    H.ObjectIdField(h.objectId).value
  }

  /** The keys bind the exact header and key-frame bytes. */
  function KeysOf(c: Primitives, input: Input, h: H.Header, dek: bytes): Keys
    requires H.Valid(h) && HEADER_LEN + h.keyFrameLen <= |input.data|
  {
    DeriveKeys(c, dek, h.salt, c.sha256(H.Wire(h) + input.data[HEADER_LEN..HEADER_LEN + h.keyFrameLen]))
  }

  function ReadMetadata(c: Primitives, input: Input, h: H.Header, dek: bytes, keys: Keys): (r: Outcome<M.Meta>)
    requires H.Valid(h)
    ensures r.Ok? ==> M.Typed(r.value) && M.Validate(r.value, h.chunkSize).Ok?
  {
    var b := ReadAt(input, HEADER_LEN + h.keyFrameLen, h.metadataFrameLen);
    if b.Err? then Err(b.error)
    else
      var plain := c.aeadOpen(keys.metadataKey, Zeros(12), b.value);
      if plain.None? then Err(AeadAuthenticationFailed)
      else
        var meta := M.FromCbor(plain.value, h.chunkSize);
        if meta.Err? then meta
        else
          M.AcceptedIsValid(plain.value, h.chunkSize);
          var salt := Salt(c, dek, Binding(IdField(h), meta.value.digest, plain.value));
          if salt.Err? then Err(salt.error)
          else if salt.value != h.salt then Err(SaltDerivationMismatch)
          else meta
  }

  function Authenticate(c: Primitives, input: Input, key: W.PrivateKey): (r: Outcome<Context>)
    ensures r.Ok? ==> Sound(r.value)
  {
    var h := ReadHeader(input);
    if h.Err? then Err(h.error)
    else
      var slots := ReadSlots(input, h.value);
      if slots.Err? then Err(slots.error)
      else
        var dek := W.UnwrapDek(c, slots.value, IdField(h.value), key);
        if dek.Err? then Err(dek.error)
        else
          var keys := KeysOf(c, input, h.value, dek.value);
          var meta := ReadMetadata(c, input, h.value, dek.value, keys);
          if meta.Err? then Err(meta.error) else Ok(Context(h.value, slots.value, meta.value, keys))
  }

  /**
   The front of `data` is a header, a key frame from which the key unwraps `dek`, and a frame that opens to `metadata`;
   the keys are bound to the exact header and key-frame bytes, and the salt to the identity and the metadata.
   */
  ghost predicate AuthenticFront(
    c: Primitives, data: bytes, key: W.PrivateKey, ctx: Context, dek: bytes, metadata: bytes)
  {
    var h := ctx.header;
    && H.Valid(h) && K.AllTyped(ctx.slots) && K.Valid(ctx.slots)
    && var wire, frame := H.Wire(h), K.Wire(ctx.slots);
    && |frame| == h.keyFrameLen && At(data, 0, wire) && At(data, 128, frame)
    && W.UnwrapDek(c, ctx.slots, IdField(h), key) == Ok(dek)
    && ctx.keys == DeriveKeys(c, dek, h.salt, c.sha256(wire + frame))
    && 128 + |frame| + h.metadataFrameLen <= |data|
    && c.aeadOpen(ctx.keys.metadataKey, Zeros(12), data[128 + |frame|..128 + |frame| + h.metadataFrameLen])
       == Some(metadata)
    && M.FromCbor(metadata, h.chunkSize) == Ok(ctx.meta)
    && Salt(c, dek, Binding(IdField(h), ctx.meta.digest, metadata)) == Ok(h.salt)
  }

  lemma HeaderReads(input: Input, h: H.Header)
    ensures ReadHeader(input) == Ok(h) <==> H.Valid(h) && At(input.data, 0, H.Wire(h))
  {
    hide H.Parse, H.Valid, H.Wire;
    if ReadHeader(input) == Ok(h) {
      H.SerializesParsed(input.data[0..HEADER_LEN]);
    }
    if H.Valid(h) && At(input.data, 0, H.Wire(h)) {
      H.ParsesSerialized(h);
    }
  }

  lemma SlotsRead(input: Input, h: H.Header, slots: seq<K.Slot>)
    ensures ReadSlots(input, h) == Ok(slots)
       <==> && K.AllTyped(slots) && K.Valid(slots)
            && |K.Wire(slots)| == h.keyFrameLen && At(input.data, 128, K.Wire(slots))
  {
    hide K.Parse, K.Valid, K.AllTyped, K.Wire;
    if ReadSlots(input, h) == Ok(slots) {
      K.SerializesParsed(input.data[HEADER_LEN..HEADER_LEN + h.keyFrameLen]);
    }
    if K.AllTyped(slots) && K.Valid(slots) {
      K.ParsesSerialized(slots);
    }
  }

  /** The front authenticates exactly when it is such a front. */
  lemma AuthenticateAccepts(c: Primitives, input: Input, key: W.PrivateKey, ctx: Context)
    ensures Authenticate(c, input, key) == Ok(ctx)
       <==> exists dek, metadata :: AuthenticFront(c, input.data, key, ctx, dek, metadata)
  {
    hide ReadHeader, ReadSlots, H.Valid, H.Wire, K.Valid, K.Wire, K.AllTyped, W.UnwrapDek, DeriveKeys, M.FromCbor, Salt,
      M.Validate, At;
    var h, slots := ctx.header, ctx.slots;
    HeaderReads(input, h);
    SlotsRead(input, h, slots);
    if Authenticate(c, input, key) == Ok(ctx) {
      AtFits(input.data, 128, K.Wire(slots));
      var dek := W.UnwrapDek(c, slots, IdField(h), key).value;
      var start := HEADER_LEN + h.keyFrameLen;
      var metadata := c.aeadOpen(ctx.keys.metadataKey, Zeros(12), input.data[start..start + h.metadataFrameLen]).value;
      assert AuthenticFront(c, input.data, key, ctx, dek, metadata);
    }
    if dek, metadata :| AuthenticFront(c, input.data, key, ctx, dek, metadata) {
      AtFits(input.data, 128, K.Wire(slots));
    }
  }

  // ----- the payload

  /** Where frame `i` of the payload starts. */
  function FrameAt(base: nat, chunkSize: nat, i: nat): nat {
    base + i * (chunkSize + TAG_LEN)
  }

  /** Opens frame `i` of `total`; the nonce carries the index and whether it is the last. */
  function DecryptFrame(c: Primitives, key: bytes, frame: bytes, chunkSize: nat, total: nat, i: nat)
    : (r: Outcome<bytes>)
    ensures r.Ok? ==> |r.value| == chunkSize
  {
    var plain := c.aeadOpen(key, Nonce(i, i + 1 == total), frame);
    if plain.None? || |plain.value| != chunkSize then Err(AeadAuthenticationFailed) else Ok(plain.value)
  }

  function ReadFrame(c: Primitives, key: bytes, input: Input, base: nat, chunkSize: nat, total: nat, i: nat)
    : (r: Outcome<bytes>)
    ensures r.Ok? ==> |r.value| == chunkSize
  {
    var frame := ReadAt(input, FrameAt(base, chunkSize, i), chunkSize + TAG_LEN);
    if frame.Err? then Err(if frame.error == UnexpectedEof then MissingFinalChunk else frame.error)
    else DecryptFrame(c, key, frame.value, chunkSize, total, i)
  }

  /** Plaintext released so far, and the error that stopped the release, if any. */
  datatype Stretch = Stretch(plain: bytes, failure: Option<Error>)

  /** The first `n` of `total` frames. */
  function Decrypted(c: Primitives, key: bytes, input: Input, base: nat, chunkSize: nat, total: nat, n: nat): Stretch {
    if n == 0 then Stretch([], None)
    else
      var before := Decrypted(c, key, input, base, chunkSize, total, n - 1);
      if before.failure.Some? then before
      else
        var chunk := ReadFrame(c, key, input, base, chunkSize, total, n - 1);
        if chunk.Err? then Stretch(before.plain, Some(chunk.error)) else Stretch(before.plain + chunk.value, None)
  }

  lemma {:induction false} DecryptedStops(c: Primitives, key: bytes, input: Input, base: nat, chunkSize: nat,
      total: nat, n: nat, m: nat)
    requires n <= m && Decrypted(c, key, input, base, chunkSize, total, n).failure.Some?
    ensures Decrypted(c, key, input, base, chunkSize, total, m) == Decrypted(c, key, input, base, chunkSize, total, n)
  {
    hide ReadFrame;
    if n < m {
      DecryptedStops(c, key, input, base, chunkSize, total, n, m - 1);
    }
  }

  /** Every frame opens to its chunk of `plain`. */
  ghost predicate Decodes(c: Primitives, key: bytes, input: Input, base: nat, chunkSize: nat, total: nat, n: nat,
      plain: bytes)
  {
    && |plain| == n * chunkSize
    && forall i :: 0 <= i < n ==> DecodesAt(c, key, input, base, chunkSize, total, i, plain)
  }

  ghost predicate DecodesAt(c: Primitives, key: bytes, input: Input, base: nat, chunkSize: nat, total: nat, i: nat,
      plain: bytes)
  {
    && (i + 1) * chunkSize <= |plain|
    && ReadFrame(c, key, input, base, chunkSize, total, i) == Ok(Chunk(plain, chunkSize, i))
  }

  lemma ChunkOfPrefix(shorter: bytes, more: bytes, chunkSize: nat, i: nat)
    requires (i + 1) * chunkSize <= |shorter|
    ensures Chunk(shorter + more, chunkSize, i) == Chunk(shorter, chunkSize, i)
  {
    Successor(i, chunkSize);
  }

  lemma LastChunk(shorter: bytes, more: bytes, chunkSize: nat, n: nat)
    requires |shorter| == n * chunkSize && |more| == chunkSize
    ensures |shorter + more| == (n + 1) * chunkSize && Chunk(shorter + more, chunkSize, n) == more
  {
    Successor(n, chunkSize);
    assert (shorter + more)[n * chunkSize..(n + 1) * chunkSize] == more;
  }

  /** A complete release is the one plaintext that every frame decodes to. */
  lemma {:induction false} DecryptedDecodes(c: Primitives, key: bytes, input: Input, base: nat, chunkSize: nat,
      total: nat, n: nat)
    requires Decrypted(c, key, input, base, chunkSize, total, n).failure.None?
    ensures Decodes(c, key, input, base, chunkSize, total, n, Decrypted(c, key, input, base, chunkSize, total, n).plain)
  {
    hide ReadFrame, Chunk;
    if n > 0 {
      DecryptedDecodes(c, key, input, base, chunkSize, total, n - 1);
      var before := Decrypted(c, key, input, base, chunkSize, total, n - 1).plain;
      var chunk := ReadFrame(c, key, input, base, chunkSize, total, n - 1).value;
      var plain := before + chunk;
      LastChunk(before, chunk, chunkSize, n - 1);
      forall i | 0 <= i < n
        ensures DecodesAt(c, key, input, base, chunkSize, total, i, plain)
      {
        if i < n - 1 {
          assert DecodesAt(c, key, input, base, chunkSize, total, i, before);
          ChunkOfPrefix(before, chunk, chunkSize, i);
        }
      }
    }
  }

  lemma {:induction false} DecodesDecrypted(c: Primitives, key: bytes, input: Input, base: nat, chunkSize: nat,
      total: nat, n: nat, plain: bytes)
    requires Decodes(c, key, input, base, chunkSize, total, n, plain)
    ensures Decrypted(c, key, input, base, chunkSize, total, n) == Stretch(plain, None)
  {
    hide ReadFrame, Chunk;
    if n > 0 {
      Successor(n - 1, chunkSize);
      var before := plain[..(n - 1) * chunkSize];
      assert DecodesAt(c, key, input, base, chunkSize, total, n - 1, plain);
      var chunk := Chunk(plain, chunkSize, n - 1);
      SplitLast(plain, chunkSize, n - 1);
      forall i | 0 <= i < n - 1
        ensures DecodesAt(c, key, input, base, chunkSize, total, i, before)
      {
        assert DecodesAt(c, key, input, base, chunkSize, total, i, plain);
        MulMonotone(i + 1, n - 1, chunkSize);
        ChunkOfPrefix(before, chunk, chunkSize, i);
      }
      DecodesDecrypted(c, key, input, base, chunkSize, total, n - 1, before);
    }
  }

  lemma SplitLast(plain: bytes, chunkSize: nat, n: nat)
    requires |plain| == (n + 1) * chunkSize
    ensures n * chunkSize <= |plain| && plain == plain[..n * chunkSize] + Chunk(plain, chunkSize, n)
  {
    Successor(n, chunkSize);
  }

  // ----- the tail

  const FILL_BLOCK: nat := 8192

  /** Reads `remaining` zero bytes, block by block. */
  function ZeroFill(input: Input, pos: nat, remaining: nat): Outcome<()>
    decreases remaining
  {
    if remaining == 0 then Ok(())
    else
      var take := if remaining < FILL_BLOCK then remaining else FILL_BLOCK;
      var b := ReadAt(input, pos, take);
      if b.Err? then Err(b.error)
      else if !AllZero(b.value) then Err(FillNotZero)
      else ZeroFill(input, pos + take, remaining - take)
  }

  lemma {:induction false} ZeroFillOk(input: Input, pos: nat, remaining: nat)
    requires pos <= |input.data|
    ensures ZeroFill(input, pos, remaining).Ok?
       <==> pos + remaining <= |input.data| && input.data[pos..pos + remaining] == Zeros(remaining)
    decreases remaining
  {
    if remaining > 0 {
      var take := if remaining < FILL_BLOCK then remaining else FILL_BLOCK;
      if pos + take <= |input.data| {
        ZeroFillOk(input, pos + take, remaining - take);
        AllZeroIsZeros(input.data[pos..pos + take]);
        if pos + remaining <= |input.data| {
          ZerosSplit(input.data[pos..pos + remaining], take);
          SliceOfSlice(input.data, pos, remaining, 0, take);
          SliceOfSlice(input.data, pos, remaining, take, remaining);
        }
      }
    }
  }

  lemma ZerosSplit(s: bytes, n: nat)
    requires n <= |s|
    ensures s == Zeros(|s|) <==> s[0..n] == Zeros(n) && s[n..|s|] == Zeros(|s| - n)
  {
    AllZeroIsZeros(s);
    AllZeroIsZeros(s[0..n]);
    AllZeroIsZeros(s[n..|s|]);
    assert s == s[0..n] + s[n..|s|];
  }

  /** Footer, fill and end of input after a payload that ends at `pos`; the stored size. */
  function Tail(input: Input, ctx: Context, pos: nat): Outcome<nat> {
    var h := ctx.header;
    var footer := ReadAt(input, pos, |FOOTER|);
    if footer.Err? then Err(footer.error)
    else if footer.value != FOOTER then Err(InvalidFooter)
    else
      var payload := PayloadFrameLen(ctx.meta.plaintextSize, h.chunkSize);
      if payload.Err? then payload
      else
        var end := FooterEnd(h.keyFrameLen, h.metadataFrameLen, payload.value);
        if end.Err? then end
        else
          var size := RoundUp(end.value, h.chunkSize);
          if size.Err? then size
          else if size.value < end.value then Err(SizeOverflow)
          else
            var fill := ZeroFill(input, pos + |FOOTER|, size.value - end.value);
            if fill.Err? then Err(fill.error)
            else if pos + |FOOTER| + (size.value - end.value) < |input.data| then Err(TrailingData)
            else if input.broken then Err(Io)
            else size
  }

  datatype Report = Report(
    header: H.Header, slots: seq<K.Slot>, meta: M.Meta, storedSize: nat, plaintextSize: nat, plaintextDigest: bytes)

  /** The plaintext released, and how the open ends. */
  datatype Opening = Opening(released: bytes, outcome: Outcome<Report>)

  function Chunks(ctx: Context): nat
    requires Sound(ctx)
  {
    ctx.meta.plaintextSize / ctx.header.chunkSize
  }

  function Opened(c: Primitives, input: Input, key: W.PrivateKey): Opening {
    var ctx := Authenticate(c, input, key);
    if ctx.Err? then Opening([], Err(ctx.error)) else Release(c, input, ctx.value)
  }

  function Release(c: Primitives, input: Input, ctx: Context): Opening
    requires Sound(ctx)
  {
    var chunkSize, total, base := ctx.header.chunkSize, Chunks(ctx), PayloadStart(ctx.header);
    var s := Decrypted(c, ctx.keys.payloadKey, input, base, chunkSize, total, total);
    if s.failure.Some? then Opening(s.plain, Err(s.failure.value))
    else if total * chunkSize != ctx.meta.plaintextSize then Opening(s.plain, Err(PlaintextSizeMismatch))
    else if c.sha256(s.plain) != ctx.meta.digest then Opening(s.plain, Err(PlaintextDigestMismatch))
    else
      var size := Tail(input, ctx, FrameAt(base, chunkSize, total));
      if size.Err? then Opening(s.plain, Err(size.error))
      else Opening(s.plain, Ok(Report(ctx.header, ctx.slots, ctx.meta, size.value, total * chunkSize, ctx.meta.digest)))
  }

  // ----- what is accepted

  /** The input is exactly frames that decode to `plain`, footer and fill, and `plain` has the recorded digest. */
  ghost predicate Stored(c: Primitives, input: Input, ctx: Context, plain: bytes)
    requires Sound(ctx)
  {
    var h, total := ctx.header, Chunks(ctx);
    var size := StoredSize(h.keyFrameLen, h.metadataFrameLen, h.chunkSize, total);
    var at := FrameAt(PayloadStart(h), h.chunkSize, total);
    && Decodes(c, ctx.keys.payloadKey, input, PayloadStart(h), h.chunkSize, total, total, plain)
    && c.sha256(plain) == ctx.meta.digest
    && !input.broken && size < U64_LIMIT && |input.data| == size
    && input.data[at..at + |FOOTER|] == FOOTER
    && input.data[at + |FOOTER|..] == Zeros(size - at - |FOOTER|)
  }

  lemma Geometry(ctx: Context)
    requires Sound(ctx)
    ensures ctx.header.chunkSize > 0 && Chunks(ctx) > 0
    ensures Chunks(ctx) * ctx.header.chunkSize == ctx.meta.plaintextSize
  {
    hide H.Valid, M.Typed;
    assert M.Validate(ctx.meta, ctx.header.chunkSize).Ok?;
    DivMod(ctx.meta.plaintextSize, ctx.header.chunkSize);
  }

  lemma ChunkIsSmall(ctx: Context)
    requires Sound(ctx)
    ensures 0 < ctx.header.chunkSize < U32_LIMIT
  {
  }

  lemma TailAccepts(input: Input, ctx: Context)
    requires Sound(ctx)
    ensures
      var h, total := ctx.header, Chunks(ctx);
      var at := FrameAt(PayloadStart(h), h.chunkSize, total);
      var size := StoredSize(h.keyFrameLen, h.metadataFrameLen, h.chunkSize, total);
      var tail := Tail(input, ctx, at);
      && size >= at + |FOOTER|
      && (tail.Ok? ==> tail.value == size)
      && (tail.Ok? <==>
          && !input.broken && size < U64_LIMIT && |input.data| == size
          && input.data[at..at + |FOOTER|] == FOOTER
          && input.data[at + |FOOTER|..] == Zeros(size - at - |FOOTER|))
  {
    hide Sound, Ceil, ZeroFill, Chunks, AllZero;
    Geometry(ctx);
    var h, total := ctx.header, Chunks(ctx);
    var at := FrameAt(PayloadStart(h), h.chunkSize, total);
    var size := StoredSize(h.keyFrameLen, h.metadataFrameLen, h.chunkSize, total);
    assert at == Offset(h.keyFrameLen, h.metadataFrameLen, h.chunkSize, total);
    TailSize(h.chunkSize, h.keyFrameLen, h.metadataFrameLen, total);
    if at + |FOOTER| <= |input.data| {
      ZeroFillOk(input, at + |FOOTER|, size - at - |FOOTER|);
      if |input.data| == size {
        assert input.data[at + |FOOTER|..] == input.data[at + |FOOTER|..size];
      }
    }
  }

  /** The tail's arithmetic: either everything fits and the sizes are the closed forms, or it overflows. */
  lemma TailSize(chunkSize: nat, keyFrameLen: nat, metadataFrameLen: nat, chunks: nat)
    requires chunkSize > 0 && chunks > 0
    ensures
      var size := StoredSize(keyFrameLen, metadataFrameLen, chunkSize, chunks);
      var footerEnd := Offset(keyFrameLen, metadataFrameLen, chunkSize, chunks) + |FOOTER|;
      var payload := PayloadFrameLen(chunks * chunkSize, chunkSize);
      if size < U64_LIMIT then
        && payload.Ok? && FooterEnd(keyFrameLen, metadataFrameLen, payload.value) == Ok(footerEnd)
        && RoundUp(footerEnd, chunkSize) == Ok(size)
      else
        payload.Ok? && FooterEnd(keyFrameLen, metadataFrameLen, payload.value).Ok? ==>
          RoundUp(FooterEnd(keyFrameLen, metadataFrameLen, payload.value).value, chunkSize).Err?
  {
    MultipleMod(chunks, chunkSize);
    assert chunks * (chunkSize + TAG_LEN) == chunks * chunkSize + TAG_LEN * chunks;
  }

  /** Opening succeeds exactly on inputs that store a plaintext for this recipient, and releases that plaintext. */
  lemma OpenAccepts(c: Primitives, input: Input, key: W.PrivateKey)
    ensures
      var ctx, opening := Authenticate(c, input, key), Opened(c, input, key);
      && (opening.outcome.Ok? <==> ctx.Ok? && Stored(c, input, ctx.value, opening.released))
      && (opening.outcome.Ok? ==>
          opening.outcome == Ok(Report(ctx.value.header, ctx.value.slots, ctx.value.meta, |input.data|,
                                       |opening.released|, c.sha256(opening.released))))
  {
    hide Authenticate, Tail, StoredSize, ReadFrame;
    var r := Authenticate(c, input, key);
    if r.Ok? {
      var ctx := r.value;
      var h, total := ctx.header, Chunks(ctx);
      Geometry(ctx);
      TailAccepts(input, ctx);
      var s := Decrypted(c, ctx.keys.payloadKey, input, PayloadStart(h), h.chunkSize, total, total);
      if s.failure.None? {
        DecryptedDecodes(c, ctx.keys.payloadKey, input, PayloadStart(h), h.chunkSize, total, total);
      } else if Decodes(c, ctx.keys.payloadKey, input, PayloadStart(h), h.chunkSize, total, total, s.plain) {
        DecodesDecrypted(c, ctx.keys.payloadKey, input, PayloadStart(h), h.chunkSize, total, total, s.plain);
      }
    }
  }

  /** A stored plaintext is released. */
  lemma OpensStored(c: Primitives, input: Input, key: W.PrivateKey, plain: bytes)
    requires Authenticate(c, input, key).Ok? && Stored(c, input, Authenticate(c, input, key).value, plain)
    ensures Opened(c, input, key).outcome.Ok? && Opened(c, input, key).released == plain
  {
    hide Authenticate, Tail, StoredSize, ReadFrame;
    var ctx := Authenticate(c, input, key).value;
    var h, total := ctx.header, Chunks(ctx);
    DecodesDecrypted(c, ctx.keys.payloadKey, input, PayloadStart(h), h.chunkSize, total, total, plain);
    Geometry(ctx);
    TailAccepts(input, ctx);
  }
}
