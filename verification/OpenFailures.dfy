/**
  Opening what is left of an object, or more than it: every proper prefix fails with a fixed
  error after releasing the whole frames it holds, and anything after the object is refused.
 */
module OpenFailures {
  import opened Bits
  import opened Outcomes
  import opened ByteStrings
  import opened Envelope
  import opened Stream
  import opened Kdf
  import opened InputOutput
  import opened Arithmetic
  import opened Open
  import H = EnvelopeHeader
  import K = KeyFrame
  import M = Metadata
  import W = Wrap

  /** How a reader ends. */
  function Ending(broken: bool): Error {
    if broken then Io else UnexpectedEof
  }

  ghost predicate SameUpTo(a: bytes, b: bytes, n: nat) {
    n <= |a| && n <= |b| && a[..n] == b[..n]
  }

  lemma SameAt(a: bytes, b: bytes, n: nat, pos: nat, part: bytes)
    requires SameUpTo(a, b, n) && At(a, pos, part) && pos + |part| <= n
    ensures At(b, pos, part)
  {
    SameSlice(a, b, n, pos, pos + |part|);
  }

  lemma SameRead(x: Input, y: Input, n: nat, pos: nat, len: nat)
    requires SameUpTo(x.data, y.data, n) && pos + len <= n
    ensures ReadAt(x, pos, len) == ReadAt(y, pos, len)
  {
    SameSlice(x.data, y.data, n, pos, pos + len);
  }

  // ----- the front

  /** An input with the same front authenticates alike. */
  lemma FrontStays(c: Primitives, x: Input, y: Input, key: W.PrivateKey, ctx: Context)
    requires Authenticate(c, x, key) == Ok(ctx) && SameUpTo(x.data, y.data, PayloadStart(ctx.header))
    ensures Authenticate(c, y, key) == Ok(ctx)
  {
    hide Authenticate, H.Valid, H.Wire, K.Valid, K.Wire, K.AllTyped, W.UnwrapDek, DeriveKeys, M.FromCbor, Salt, At;
    AuthenticateAccepts(c, x, key, ctx);
    AuthenticateAccepts(c, y, key, ctx);
    var dek, metadata :| AuthenticFront(c, x.data, key, ctx, dek, metadata);
    var wire, frame, all := H.Wire(ctx.header), K.Wire(ctx.slots), PayloadStart(ctx.header);
    SameAt(x.data, y.data, all, 0, wire);
    SameAt(x.data, y.data, all, 128, frame);
    SameSlice(x.data, y.data, all, 128 + |frame|, all);
    assert AuthenticFront(c, y.data, key, ctx, dek, metadata);
  }

  /** An input that ends inside the front fails as the reader ends. */
  lemma ShortFront(c: Primitives, x: Input, y: Input, key: W.PrivateKey)
    requires Authenticate(c, x, key).Ok? && y.data <= x.data
    requires |y.data| < PayloadStart(Authenticate(c, x, key).value.header)
    ensures Authenticate(c, y, key) == Err(Ending(y.broken))
  {
    hide H.Parse, H.Valid, K.Parse, K.AllTyped, M.FromCbor, W.UnwrapDek, H.Wire, SaltFrom, M.Validate;
    var h := Authenticate(c, x, key).value.header;
    assert SameUpTo(x.data, y.data, |y.data|);
    if HEADER_LEN <= |y.data| {
      SameRead(x, y, |y.data|, 0, HEADER_LEN);
      if HEADER_LEN + h.keyFrameLen <= |y.data| {
        SameRead(x, y, |y.data|, HEADER_LEN, h.keyFrameLen);
      }
    }
  }

  // ----- the payload

  lemma NextFrame(base: nat, chunkSize: nat, i: nat)
    ensures FrameAt(base, chunkSize, i + 1) == FrameAt(base, chunkSize, i) + (chunkSize + TAG_LEN)
    ensures base <= FrameAt(base, chunkSize, i)
  {
    Successor(i, chunkSize + TAG_LEN);
  }

  /** Inputs with the same frames release the same. */
  lemma {:induction false} SameFrames(c: Primitives, key: bytes, x: Input, y: Input, base: nat, chunkSize: nat,
      total: nat, n: nat)
    requires SameUpTo(x.data, y.data, FrameAt(base, chunkSize, n))
    ensures Decrypted(c, key, x, base, chunkSize, total, n) == Decrypted(c, key, y, base, chunkSize, total, n)
    decreases n
  {
    hide DecryptFrame, FrameAt, ReadAt;
    if n > 0 {
      var at := FrameAt(base, chunkSize, n - 1);
      NextFrame(base, chunkSize, n - 1);
      SameShorter(x.data, y.data, FrameAt(base, chunkSize, n), at);
      SameFrames(c, key, x, y, base, chunkSize, total, n - 1);
      SameRead(x, y, FrameAt(base, chunkSize, n), at, chunkSize + TAG_LEN);
    }
  }

  lemma SameShorter(a: bytes, b: bytes, n: nat, m: nat)
    requires SameUpTo(a, b, n) && m <= n
    ensures SameUpTo(a, b, m)
  {
    SameSlice(a, b, n, 0, m);
  }

  /** What is released after `n` frames begins every longer release. */
  lemma {:induction false} ReleaseGrows(c: Primitives, key: bytes, input: Input, base: nat, chunkSize: nat, total: nat,
      n: nat, m: nat)
    requires n <= m && Decrypted(c, key, input, base, chunkSize, total, m).failure.None?
    ensures
      var s := Decrypted(c, key, input, base, chunkSize, total, n);
      var t := Decrypted(c, key, input, base, chunkSize, total, m);
      s.failure.None? && |s.plain| == n * chunkSize <= |t.plain| && s.plain == t.plain[..n * chunkSize]
    decreases m
  {
    hide ReadFrame;
    if n < m {
      ReleaseGrows(c, key, input, base, chunkSize, total, n, m - 1);
    } else {
      DecryptedDecodes(c, key, input, base, chunkSize, total, n);
    }
  }

  /** A missing frame ends the release. */
  lemma MissingFrame(c: Primitives, key: bytes, input: Input, base: nat, chunkSize: nat, total: nat, k: nat)
    requires k < total && Decrypted(c, key, input, base, chunkSize, total, k).failure.None?
    requires |input.data| < FrameAt(base, chunkSize, k + 1)
    ensures Decrypted(c, key, input, base, chunkSize, total, total)
         == Stretch(Decrypted(c, key, input, base, chunkSize, total, k).plain,
                    Some(if input.broken then Io else MissingFinalChunk))
  {
    hide DecryptFrame, FrameAt;
    NextFrame(base, chunkSize, k);
    DecryptedStops(c, key, input, base, chunkSize, total, k + 1, total);
  }

  // ----- the tail

  lemma {:induction false} FillEnds(input: Input, pos: nat, remaining: nat)
    requires pos <= |input.data| < pos + remaining && AllZero(input.data[pos..])
    ensures ZeroFill(input, pos, remaining) == Err(Ending(input.broken))
    decreases remaining
  {
    var take := if remaining < FILL_BLOCK then remaining else FILL_BLOCK;
    if pos + take <= |input.data| {
      assert forall i :: 0 <= i < take ==> input.data[pos + i] == input.data[pos..][i];
      assert input.data[pos + take..] == input.data[pos..][take..];
      FillEnds(input, pos + take, remaining - take);
    }
  }

  /** Where the footer starts. */
  function FooterAt(ctx: Context): nat
    requires Sound(ctx)
  {
    FrameAt(PayloadStart(ctx.header), ctx.header.chunkSize, Chunks(ctx))
  }

  /** The sizes that a tail computes, when it is accepted on some input. */
  lemma TailSizes(x: Input, ctx: Context)
    requires Sound(ctx) && Tail(x, ctx, FooterAt(ctx)).Ok?
    ensures
      var h := ctx.header;
      var payload := PayloadFrameLen(ctx.meta.plaintextSize, h.chunkSize);
      var end := FooterAt(ctx) + |FOOTER|;
      && payload.Ok? && FooterEnd(h.keyFrameLen, h.metadataFrameLen, payload.value) == Ok(end)
      && RoundUp(end, h.chunkSize) == Ok(|x.data|) && end <= |x.data|
      && x.data[FooterAt(ctx)..end] == FOOTER && x.data[end..] == Zeros(|x.data| - end) && !x.broken
  {
    hide Sound, Ceil, Chunks, Tail, StoredSize;
    Geometry(ctx);
    TailAccepts(x, ctx);
    var h := ctx.header;
    OffsetIsFrame(h, Chunks(ctx));
    TailSize(h.chunkSize, h.keyFrameLen, h.metadataFrameLen, Chunks(ctx));
  }

  lemma OffsetIsFrame(h: H.Header, n: nat)
    ensures FrameAt(PayloadStart(h), h.chunkSize, n) == Offset(h.keyFrameLen, h.metadataFrameLen, h.chunkSize, n)
  {
  }

  lemma TailCut(x: Input, y: Input, ctx: Context)
    requires Sound(ctx) && Tail(x, ctx, FooterAt(ctx)).Ok?
    requires y.data <= x.data && FooterAt(ctx) <= |y.data| && (|y.data| < |x.data| || y.broken)
    ensures Tail(y, ctx, FooterAt(ctx)) == Err(Ending(y.broken))
  {
    hide Sound, FooterAt, PayloadFrameLen, FooterEnd, RoundUp, ZeroFill, AllZero;
    TailSizes(x, ctx);
    var end := FooterAt(ctx) + |FOOTER|;
    if end <= |y.data| {
      assert y.data[FooterAt(ctx)..end] == x.data[FooterAt(ctx)..end];
      var rest := y.data[end..];
      assert rest == x.data[end..][..|rest|] && rest == Zeros(|rest|);
      AllZeroIsZeros(rest);
      if |y.data| < |x.data| {
        FillEnds(y, end, |x.data| - end);
      } else {
        ZeroFillOk(y, end, |x.data| - end);
        assert y.data[end..|x.data|] == rest;
      }
    }
  }

  lemma TailExtended(x: Input, y: Input, ctx: Context)
    requires Sound(ctx) && Tail(x, ctx, FooterAt(ctx)).Ok?
    requires x.data <= y.data && |x.data| < |y.data|
    ensures Tail(y, ctx, FooterAt(ctx)) == Err(TrailingData)
  {
    hide Sound, FooterAt, PayloadFrameLen, FooterEnd, RoundUp, ZeroFill, AllZero;
    TailSizes(x, ctx);
    var end := FooterAt(ctx) + |FOOTER|;
    assert y.data[FooterAt(ctx)..end] == x.data[FooterAt(ctx)..end];
    assert y.data[end..|x.data|] == x.data[end..];
    ZeroFillOk(y, end, |x.data| - end);
  }

  // ----- whole objects

  /** What whole open has established when it succeeds. */
  lemma OpenedParts(c: Primitives, x: Input, key: W.PrivateKey)
    requires Opened(c, x, key).outcome.Ok?
    ensures Authenticate(c, x, key).Ok?
    ensures
      var ctx := Authenticate(c, x, key).value;
      var s := Decrypted(c, ctx.keys.payloadKey, x, PayloadStart(ctx.header), ctx.header.chunkSize, Chunks(ctx),
                         Chunks(ctx));
      && ctx.header == Opened(c, x, key).outcome.value.header
      && s == Stretch(Opened(c, x, key).released, None) && c.sha256(s.plain) == ctx.meta.digest
      && Chunks(ctx) * ctx.header.chunkSize == ctx.meta.plaintextSize
      && Tail(x, ctx, FooterAt(ctx)).Ok? && FooterAt(ctx) <= |x.data|
  {
    hide Authenticate, Tail, Decrypted, Sound;
    var ctx := Authenticate(c, x, key).value;
    TailSizes(x, ctx);
  }

  /** The whole frames among the first `n` bytes. */
  function WholeFrames(ctx: Context, n: nat): nat
    requires Sound(ctx)
  {
    var base, stride := PayloadStart(ctx.header), ctx.header.chunkSize + TAG_LEN;
    if n < base then 0 else if FooterAt(ctx) <= n then Chunks(ctx) else Quo(n - base, stride)
  }

  /** The plaintext of the frames that `n` bytes hold whole. */
  function KeptBytes(ctx: Context, n: nat): nat
    requires Sound(ctx)
  {
    WholeFrames(ctx, n) * ctx.header.chunkSize
  }

  function CutError(ctx: Context, n: nat, broken: bool): Error
    requires Sound(ctx)
  {
    if broken then Io else if PayloadStart(ctx.header) <= n < FooterAt(ctx) then MissingFinalChunk else UnexpectedEof
  }

  lemma FramesWithin(ctx: Context, n: nat)
    requires Sound(ctx) && PayloadStart(ctx.header) <= n < FooterAt(ctx)
    ensures
      var base, k := PayloadStart(ctx.header), WholeFrames(ctx, n);
      && k < Chunks(ctx) && FrameAt(base, ctx.header.chunkSize, k) <= n < FrameAt(base, ctx.header.chunkSize, k + 1)
  {
    hide Sound, Chunks;
    var base, stride := PayloadStart(ctx.header), ctx.header.chunkSize + TAG_LEN;
    var k := Quo(n - base, stride);
    QuoRem(n - base, stride);
    Successor(k, stride);
    if Chunks(ctx) <= k {
      MulMonotone(Chunks(ctx), k, stride);
    }
  }

  /**
   A proper prefix of an object, or the object from a reader that then breaks, fails: with the reader's error if it is
   broken, and otherwise with a missing chunk if it ends inside the payload and an early end anywhere else. The chunks
   released are those whose frames the prefix holds whole.
   */
  lemma TruncatedFails(c: Primitives, x: Input, y: Input, key: W.PrivateKey, ctx: Context)
    requires Opened(c, x, key).outcome.Ok? && Authenticate(c, x, key) == Ok(ctx)
    requires y.data <= x.data && (|y.data| < |x.data| || y.broken)
    ensures
      var plain, kept := Opened(c, x, key).released, KeptBytes(ctx, |y.data|);
      && kept <= |plain| && Opened(c, y, key) == Opening(plain[..kept], Err(CutError(ctx, |y.data|, y.broken)))
  {
    hide Authenticate, Tail, Decrypted, Sound, WholeFrames, Chunks, FrameAt, PayloadStart;
    OpenedParts(c, x, key);
    var h, total, base := ctx.header, Chunks(ctx), PayloadStart(ctx.header);
    var n := |y.data|;
    ReleaseGrows(c, ctx.keys.payloadKey, x, base, h.chunkSize, total, total, total);
    if n < base {
      ShortFront(c, x, y, key);
      NoFrames(ctx, n);
    } else {
      FrontStays(c, x, y, key, ctx);
      if n < FooterAt(ctx) {
        var k := WholeFrames(ctx, n);
        FramesWithin(ctx, n);
        SameShorter(x.data, y.data, n, FrameAt(base, h.chunkSize, k));
        SameFrames(c, ctx.keys.payloadKey, x, y, base, h.chunkSize, total, k);
        ReleaseGrows(c, ctx.keys.payloadKey, x, base, h.chunkSize, total, k, total);
        MissingFrame(c, ctx.keys.payloadKey, y, base, h.chunkSize, total, k);
      } else {
        AllFrames(c, x, y, ctx, n);
        TailCut(x, y, ctx);
      }
    }
  }

  lemma NoFrames(ctx: Context, n: nat)
    requires Sound(ctx) && n < PayloadStart(ctx.header)
    ensures WholeFrames(ctx, n) == 0 && n < FooterAt(ctx)
  {
    hide Sound, Chunks;
    NextFrame(PayloadStart(ctx.header), ctx.header.chunkSize, Chunks(ctx));
  }

  lemma AllFrames(c: Primitives, x: Input, y: Input, ctx: Context, n: nat)
    requires Sound(ctx) && FooterAt(ctx) <= n && SameUpTo(x.data, y.data, n)
    ensures WholeFrames(ctx, n) == Chunks(ctx) && PayloadStart(ctx.header) <= n
    ensures
      var h, total := ctx.header, Chunks(ctx);
      Decrypted(c, ctx.keys.payloadKey, x, PayloadStart(h), h.chunkSize, total, total)
      == Decrypted(c, ctx.keys.payloadKey, y, PayloadStart(h), h.chunkSize, total, total)
  {
    hide Sound, Chunks, Decrypted;
    var h, total := ctx.header, Chunks(ctx);
    NextFrame(PayloadStart(h), h.chunkSize, total);
    SameShorter(x.data, y.data, n, FooterAt(ctx));
    SameFrames(c, ctx.keys.payloadKey, x, y, PayloadStart(h), h.chunkSize, total, total);
  }

  /** An object with anything after it releases the plaintext and then fails. */
  lemma ExtendedFails(c: Primitives, x: Input, y: Input, key: W.PrivateKey)
    requires Opened(c, x, key).outcome.Ok? && x.data <= y.data && |x.data| < |y.data|
    ensures Opened(c, y, key) == Opening(Opened(c, x, key).released, Err(TrailingData))
  {
    hide Authenticate, Tail, Decrypted, Sound, Chunks, WholeFrames, FrameAt, PayloadStart;
    OpenedParts(c, x, key);
    var ctx := Authenticate(c, x, key).value;
    AllFrames(c, x, y, ctx, |x.data|);
    SameShorter(x.data, y.data, |x.data|, PayloadStart(ctx.header));
    FrontStays(c, x, y, key, ctx);
    TailExtended(x, y, ctx);
  }

  /** An object whose footer or fill is damaged releases the plaintext and then fails. */
  lemma DamagedTailFails(c: Primitives, x: Input, y: Input, key: W.PrivateKey, ctx: Context)
    requires Opened(c, x, key).outcome.Ok? && Authenticate(c, x, key) == Ok(ctx)
    requires |y.data| == |x.data| && y.data != x.data && SameUpTo(x.data, y.data, FooterAt(ctx))
    ensures
      var footer := FooterAt(ctx);
      && footer + 16 <= |y.data|
      && var intact := y.data[footer..footer + 16] == Ascii("REMO_STREAM_END.");
         Opened(c, y, key)
         == Opening(Opened(c, x, key).released, Err(if intact then FillNotZero else InvalidFooter))
  {
    hide Authenticate, Tail, Decrypted, Sound, Chunks, WholeFrames, FrameAt, PayloadStart;
    OpenedParts(c, x, key);
    AllFrames(c, x, y, ctx, FooterAt(ctx));
    SameShorter(x.data, y.data, FooterAt(ctx), PayloadStart(ctx.header));
    FrontStays(c, x, y, key, ctx);
    TailDamaged(x, y, ctx);
  }

  lemma {:induction false} FillDamaged(input: Input, pos: nat, remaining: nat)
    requires pos + remaining <= |input.data| && !AllZero(input.data[pos..pos + remaining])
    ensures ZeroFill(input, pos, remaining) == Err(FillNotZero)
    decreases remaining
  {
    var take := if remaining < FILL_BLOCK then remaining else FILL_BLOCK;
    var all := input.data[pos..pos + remaining];
    assert all[..take] == input.data[pos..pos + take] && all[take..] == input.data[pos + take..pos + remaining];
    var i :| 0 <= i < |all| && all[i] != 0;
    if AllZero(all[..take]) {
      assert i >= take ==> all[take..][i - take] != 0;
      FillDamaged(input, pos + take, remaining - take);
    }
  }

  lemma FooterSpelling()
    ensures FOOTER == Ascii("REMO_STREAM_END.")
  {
  }

  lemma LastPartDiffers(a: bytes, b: bytes, i: nat, j: nat)
    requires a != b && |a| == |b| && i <= j <= |a| && a[..i] == b[..i] && a[i..j] == b[i..j]
    ensures a[j..] != b[j..]
  {
    assert a == a[..i] + a[i..j] + a[j..] && b == b[..i] + b[i..j] + b[j..];
  }

  lemma TailDamaged(x: Input, y: Input, ctx: Context)
    requires Sound(ctx) && Tail(x, ctx, FooterAt(ctx)).Ok?
    requires |y.data| == |x.data| && y.data != x.data && SameUpTo(x.data, y.data, FooterAt(ctx))
    ensures
      var footer := FooterAt(ctx);
      && footer + 16 <= |y.data|
      && Tail(y, ctx, footer)
         == Err(if y.data[footer..footer + 16] != Ascii("REMO_STREAM_END.") then InvalidFooter else FillNotZero)
  {
    hide Sound, FooterAt, PayloadFrameLen, FooterEnd, RoundUp, ZeroFill, AllZero, Ascii;
    TailSizes(x, ctx);
    FooterSpelling();
    var footer := FooterAt(ctx);
    var end := footer + 16;
    if y.data[footer..end] == FOOTER {
      AllZeroIsZeros(y.data[end..]);
      LastPartDiffers(x.data, y.data, footer, end);
      assert y.data[end..] == y.data[end..|x.data|];
      FillDamaged(y, end, |x.data| - end);
    }
  }
}
