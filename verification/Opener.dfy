/** Whole open as it runs: a reader, a writer that gets each chunk as soon as it is verified, and loops over both. */
module Opener {
  import opened Bits
  import opened Outcomes
  import opened ByteStrings
  import opened Envelope
  import opened Stream
  import opened Kdf
  import opened InputOutput
  import opened Arithmetic
  import opened Open
  import H = EnvelopeHeader
  import K = KeyFrame
  import M = Metadata
  import MD = MetadataDecoder
  import W = Wrap

  /** Reads the front in order; on success the reader stands at the first payload frame. */
  method AuthenticateFront(c: Primitives, source: Source, key: W.PrivateKey) returns (r: Outcome<Context>)
    requires source.Valid() && source.pos == 0
    modifies source
    ensures source.Valid() && r == Authenticate(c, source.input, key)
    ensures r.Ok? ==> source.pos == PayloadStart(r.value.header)
  {
    hide H.Valid, H.Parse, K.Parse, K.AllTyped, H.Wire, M.FromCbor, M.Validate, SaltFrom, W.UnwrapDek;
    var input := source.input;
    var headerBytes := source.ReadExact(HEADER_LEN);
    if headerBytes.Err? {
      return Err(headerBytes.error);
    }
    var header := H.Parse(headerBytes.value);
    assert ReadHeader(input) == header;
    if header.Err? {
      return Err(header.error);
    }
    var h := header.value;
    var keyFrameBytes := source.ReadExact(h.keyFrameLen);
    if keyFrameBytes.Err? {
      return Err(keyFrameBytes.error);
    }
    var slots := K.Parse(keyFrameBytes.value);
    assert ReadSlots(input, h) == slots;
    if slots.Err? {
      return Err(slots.error);
    }
    var dek := W.UnwrapDek(c, slots.value, IdField(h), key);
    if dek.Err? {
      return Err(dek.error);
    }
    var keys := DeriveKeys(c, dek.value, h.salt, c.sha256(H.Wire(h) + keyFrameBytes.value));
    var metadataFrame := source.ReadExact(h.metadataFrameLen);
    if metadataFrame.Err? {
      return Err(metadataFrame.error);
    }
    var plain := c.aeadOpen(keys.metadataKey, Zeros(12), metadataFrame.value);
    if plain.None? {
      return Err(AeadAuthenticationFailed);
    }
    var meta := MD.DecodeMetadata(plain.value, h.chunkSize);
    if meta.Err? {
      return Err(meta.error);
    }
    var salt := DeriveSalt(c, dek.value, Binding(IdField(h), meta.value.digest, plain.value));
    if salt.Err? {
      return Err(salt.error);
    }
    if salt.value != h.salt {
      return Err(SaltDerivationMismatch);
    }
    return Ok(Context(h, slots.value, meta.value, keys));
  }

  /** Writes the plaintext of each frame that verifies, in order, and stops at the first that does not. */
  method DecryptPayload(c: Primitives, source: Source, out: Sink, key: bytes, chunkSize: nat, total: nat)
    returns (r: Outcome<bytes>)
    requires source.Valid() && !out.failed
    modifies source, out
    ensures source.Valid()
    ensures var s := Decrypted(c, key, source.input, old(source.pos), chunkSize, total, total);
      if out.failed then r == Err(Io) && old(out.written) <= out.written <= old(out.written) + s.plain
      else
        && out.written == old(out.written) + s.plain
        && (s.failure.Some? ==> r == Err(s.failure.value))
        && (s.failure.None? ==> r == Ok(c.sha256(s.plain)) && source.pos == FrameAt(old(source.pos), chunkSize, total))
    ensures out.capacity.None? ==> !out.failed
  {
    hide Nonce, DecryptFrame, Decrypted;
    ghost var base := source.pos;
    ghost var input := source.input;
    var seen: bytes := [];
    var index := 0;
    DecryptedStep(c, key, input, base, chunkSize, total, 0);
    while index < total
      invariant 0 <= index <= total && source.Valid() && !out.failed
      invariant source.pos == FrameAt(base, chunkSize, index)
      invariant Decrypted(c, key, input, base, chunkSize, total, index) == Stretch(seen, None)
      invariant out.written == old(out.written) + seen
    {
      DecryptedStep(c, key, input, base, chunkSize, total, index + 1);
      ghost var next := Decrypted(c, key, input, base, chunkSize, total, index + 1);
      if next.failure.Some? {
        DecryptedStops(c, key, input, base, chunkSize, total, index + 1, total);
      }
      DecryptedGrows(c, key, input, base, chunkSize, total, index + 1, total);
      Successor(index, chunkSize + TAG_LEN);
      var encrypted := source.ReadExact(chunkSize + TAG_LEN);
      if encrypted.Err? {
        return Err(if encrypted.error == UnexpectedEof then MissingFinalChunk else encrypted.error);
      }
      var chunk := DecryptFrame(c, key, encrypted.value, chunkSize, total, index);
      if chunk.Err? {
        return Err(chunk.error);
      }
      seen := seen + chunk.value;
      var ok := out.WriteAll(chunk.value);
      if ok.Err? {
        return Err(ok.error);
      }
      index := index + 1;
    }
    return Ok(c.sha256(seen));
  }

  lemma DecryptedStep(c: Primitives, key: bytes, input: Input, base: nat, chunkSize: nat, total: nat, n: nat)
    ensures Decrypted(c, key, input, base, chunkSize, total, n) ==
      if n == 0 then Stretch([], None)
      else
        var before := Decrypted(c, key, input, base, chunkSize, total, n - 1);
        if before.failure.Some? then before
        else
          var chunk := ReadFrame(c, key, input, base, chunkSize, total, n - 1);
          if chunk.Err? then Stretch(before.plain, Some(chunk.error)) else Stretch(before.plain + chunk.value, None)
  {
  }

  lemma {:induction false} DecryptedGrows(c: Primitives, key: bytes, input: Input, base: nat, chunkSize: nat,
      total: nat, n: nat, m: nat)
    requires n <= m
    ensures Decrypted(c, key, input, base, chunkSize, total, n).plain
         <= Decrypted(c, key, input, base, chunkSize, total, m).plain
  {
    hide ReadFrame;
    if n < m {
      DecryptedGrows(c, key, input, base, chunkSize, total, n, m - 1);
    }
  }

  method ReadZeroFill(source: Source, fill: nat) returns (r: Outcome<()>)
    requires source.Valid()
    modifies source
    ensures source.Valid() && r == ZeroFill(source.input, old(source.pos), fill)
    ensures r.Ok? ==> source.pos == old(source.pos) + fill
  {
    ghost var base := source.pos;
    var remaining := fill;
    while remaining > 0
      invariant 0 <= remaining <= fill && source.Valid() && source.pos == base + (fill - remaining)
      invariant ZeroFill(source.input, source.pos, remaining) == ZeroFill(source.input, base, fill)
    {
      var take := if remaining < FILL_BLOCK then remaining else FILL_BLOCK;
      var b := source.ReadExact(take);
      if b.Err? {
        return Err(b.error);
      }
      if !AllZero(b.value) {
        return Err(FillNotZero);
      }
      remaining := remaining - take;
    }
    return Ok(());
  }

  method ReadTail(source: Source, ctx: Context) returns (r: Outcome<nat>)
    requires source.Valid()
    modifies source
    ensures source.Valid() && r == Tail(source.input, ctx, old(source.pos))
  {
    hide PayloadFrameLen, FooterEnd, RoundUp, ZeroFill;
    var footer := source.ReadExact(|FOOTER|);
    if footer.Err? {
      return Err(footer.error);
    }
    if footer.value != FOOTER {
      return Err(InvalidFooter);
    }
    var h := ctx.header;
    var payload := PayloadFrameLen(ctx.meta.plaintextSize, h.chunkSize);
    if payload.Err? {
      return Err(payload.error);
    }
    var end := FooterEnd(h.keyFrameLen, h.metadataFrameLen, payload.value);
    if end.Err? {
      return Err(end.error);
    }
    var size := RoundUp(end.value, h.chunkSize);
    if size.Err? {
      return Err(size.error);
    }
    if size.value < end.value {
      return Err(SizeOverflow);
    }
    var fill := ReadZeroFill(source, size.value - end.value);
    if fill.Err? {
      return Err(fill.error);
    }
    var eof := source.EnsureEof(TrailingData);
    return if eof.Err? then Err(eof.error) else size;
  }

  method OpenObject(c: Primitives, source: Source, out: Sink, key: W.PrivateKey) returns (r: Outcome<Report>)
    requires source.Valid() && source.pos == 0 && !out.failed
    modifies source, out
    ensures var opening := Opened(c, source.input, key);
      if out.failed then r == Err(Io) && old(out.written) <= out.written <= old(out.written) + opening.released
      else r == opening.outcome && out.written == old(out.written) + opening.released
    ensures out.capacity.None? ==> !out.failed
  {
    hide Authenticate, Decrypted, Tail;
    var front := AuthenticateFront(c, source, key);
    if front.Err? {
      return Err(front.error);
    }
    var ctx := front.value;
    var total := ctx.meta.plaintextSize / ctx.header.chunkSize;
    var digest := DecryptPayload(c, source, out, ctx.keys.payloadKey, ctx.header.chunkSize, total);
    if digest.Err? {
      return Err(digest.error);
    }
    if total * ctx.header.chunkSize != ctx.meta.plaintextSize {
      return Err(PlaintextSizeMismatch);
    }
    if digest.value != ctx.meta.digest {
      return Err(PlaintextDigestMismatch);
    }
    var size := ReadTail(source, ctx);
    if size.Err? {
      return Err(size.error);
    }
    return Ok(Report(ctx.header, ctx.slots, ctx.meta, size.value, total * ctx.header.chunkSize, ctx.meta.digest));
  }
}
