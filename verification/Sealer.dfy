/** The sealer as it runs: entropy first, then preparation, then one pass over the plaintext into a hashing writer. */
module Sealer {
  import opened Bits
  import opened Outcomes
  import opened ByteStrings
  import opened Envelope
  import opened Stream
  import opened Kdf
  import opened InputOutput
  import opened Arithmetic
  import opened Seal
  import H = EnvelopeHeader
  import K = KeyFrame
  import M = Metadata
  import W = Wrap

  const ZERO_BLOCK: nat := 8192

  class HashingWriter {
    const inner: Sink
    var hashed: bytes
    var count: nat
    /** A write failed, or the byte count no longer fits 64 bits. */
    var failed: bool
    ghost const before: bytes

    ghost predicate Valid()
      reads this, inner
    {
      && inner.written == before + hashed
      && (!failed ==> count == |hashed| < U64_LIMIT)
    }

    constructor (inner: Sink)
      ensures Valid() && !failed && this.inner == inner && hashed == [] && before == inner.written
    {
      this.inner := inner;
      hashed, count, failed := [], 0, false;
      before := inner.written;
    }

    method WriteAll(b: bytes) returns (r: Outcome<()>)
      requires Valid() && !failed
      modifies this, inner
      ensures Valid() && r == if failed then Err(Io) else Ok(())
      ensures old(hashed) <= hashed <= old(hashed) + b
      ensures !failed ==> hashed == old(hashed) + b
      ensures inner.capacity.None? && |old(hashed)| + |b| < U64_LIMIT ==> !failed
    {
      var was := inner.written;
      r := inner.WriteAll(b);
      var n := |inner.written| - |was|;
      assert inner.written == was + b[..n];
      hashed := hashed + b[..n];
      failed := r.Err?;
      if count + n >= U64_LIMIT {
        failed := true;
        return Err(Io);
      }
      count := count + n;
    }
  }

  /** Writes the first `n` of `total` frames at most: exactly those whose chunks the input delivers. */
  method EncryptPayload(c: Primitives, input: Source, out: HashingWriter, key: bytes, chunkSize: nat, total: nat)
    returns (r: Outcome<bytes>)
    requires Lawful(c) && input.Valid() && input.pos == 0 && out.Valid() && !out.failed && chunkSize > 0
    modifies input, out, out.inner
    ensures input.Valid() && out.Valid()
    ensures var n := Delivered(input.input.data, chunkSize, total);
      var frames := Frames(c, key, input.input.data, chunkSize, total, n);
      && old(out.hashed) <= out.hashed <= old(out.hashed) + frames
      && (out.failed ==> r == Err(Io))
      && (!out.failed ==>
          && out.hashed == old(out.hashed) + frames
          && (n == total ==>
              var seen := DeliveredBytes(input.input.data, chunkSize, total);
              r == Ok(c.sha256(seen)) && input.pos == |seen|)
          && (n < total ==> r == Err(if input.input.broken then Io else UnexpectedEof)))
      && (out.inner.capacity.None? && |old(out.hashed)| + |frames| < U64_LIMIT ==> !out.failed)
  {
    hide Lawful, Nonce, BigEndian, Frames, Delivered;
    var data := input.input.data;
    ghost var n := Delivered(data, chunkSize, total);
    var seen: bytes := [];
    var index := 0;
    FramesEmpty(c, key, data, chunkSize, total);
    while index < total
      invariant 0 <= index <= n && input.Valid() && out.Valid() && !out.failed
      invariant input.pos == index * chunkSize <= |data| && seen == data[..input.pos]
      invariant out.hashed == old(out.hashed) + Frames(c, key, data, chunkSize, total, index)
    {
      Successor(index, chunkSize);
      var chunk := input.ReadExact(chunkSize);
      if chunk.Err? {
        if index < n {
          MulMonotone(index + 1, n, chunkSize);
        }
        return Err(chunk.error);
      }
      if n < total {
        BelowFrom(index, n, chunkSize, |data|);
      }
      seen := seen + chunk.value;
      var final := index + 1 == total;
      var encrypted := c.aeadSeal(key, Nonce(index, final), chunk.value);
      FramesStep(c, key, data, chunkSize, total, index, chunk.value);
      FramesGrow(c, key, data, chunkSize, total, index + 1, n);
      var ok := out.WriteAll(encrypted);
      if ok.Err? {
        return Err(ok.error);
      }
      index := index + 1;
    }
    return Ok(c.sha256(seen));
  }

  lemma FramesEmpty(c: Primitives, key: bytes, plain: bytes, chunkSize: nat, total: nat)
    ensures Frames(c, key, plain, chunkSize, total, 0) == []
  {
  }

  lemma FramesStep(c: Primitives, key: bytes, plain: bytes, chunkSize: nat, total: nat, i: nat, chunk: bytes)
    requires i * chunkSize + chunkSize <= |plain| && chunk == plain[i * chunkSize..i * chunkSize + chunkSize]
    ensures (i + 1) * chunkSize <= |plain| && i * chunkSize <= |plain|
    ensures Frames(c, key, plain, chunkSize, total, i + 1)
         == Frames(c, key, plain, chunkSize, total, i) + c.aeadSeal(key, Nonce(i, i + 1 == total), chunk)
  {
    hide Nonce;
    Successor(i, chunkSize);
    assert Chunk(plain, chunkSize, i) == chunk;
  }

  lemma {:induction false} FramesGrow(c: Primitives, key: bytes, plain: bytes, chunkSize: nat, total: nat, i: nat,
      n: nat)
    requires i <= n && n * chunkSize <= |plain|
    ensures i * chunkSize <= |plain|
    ensures Frames(c, key, plain, chunkSize, total, i) <= Frames(c, key, plain, chunkSize, total, n)
  {
    hide Nonce;
    MulMonotone(i, n, chunkSize);
    if i < n {
      MulMonotone(n - 1, n, chunkSize);
      FramesGrow(c, key, plain, chunkSize, total, i, n - 1);
    }
  }

  /** A chunk that the input still delivers is one of the `n`. */
  lemma BelowFrom(i: nat, n: nat, c: nat, size: nat)
    requires size < (n + 1) * c && (i + 1) * c <= size
    ensures i < n
  {
    if n <= i {
      MulMonotone(n + 1, i + 1, c);
    }
  }

  method WriteZeroFill(out: HashingWriter, fill: nat) returns (r: Outcome<()>)
    requires out.Valid() && !out.failed
    modifies out, out.inner
    ensures out.Valid() && r == if out.failed then Err(Io) else Ok(())
    ensures old(out.hashed) <= out.hashed <= old(out.hashed) + Zeros(fill)
    ensures !out.failed ==> out.hashed == old(out.hashed) + Zeros(fill)
    ensures out.inner.capacity.None? && |old(out.hashed)| + fill < U64_LIMIT ==> !out.failed
  {
    var remaining := fill;
    while remaining > 0
      invariant 0 <= remaining <= fill && out.Valid() && !out.failed
      invariant out.hashed == old(out.hashed) + Zeros(fill - remaining)
    {
      var take := if remaining < ZERO_BLOCK then remaining else ZERO_BLOCK;
      assert Zeros(fill - remaining) + Zeros(take) == Zeros(fill - (remaining - take)) <= Zeros(fill);
      var ok := out.WriteAll(Zeros(take));
      if ok.Err? {
        return ok;
      }
      remaining := remaining - take;
    }
    assert Zeros(fill - remaining) == Zeros(fill);
    return Ok(());
  }

  /** `validate_recipient_set`: three passes over the recipients, each with its own refusal. */
  method ValidateRecipientSet(rs: seq<W.PublicKey>) returns (r: Outcome<()>)
    ensures r == if RecipientsOk(rs) then Ok(()) else Err(InvalidInput)
  {
    for i := 0 to |rs|
      invariant forall a, b :: 0 <= a < b < i ==> rs[a].epochId != rs[b].epochId
    {
      for j := 0 to i
        invariant forall a :: 0 <= a < j ==> rs[a].epochId != rs[i].epochId
      {
        if rs[j].epochId == rs[i].epochId {
          return Err(InvalidInput);
        }
      }
    }
    var i := 1;
    while i < |rs|
      invariant 1 <= i && forall a :: 1 <= a < i && a < |rs| ==> rs[a - 1].index < rs[a].index
    {
      if rs[i - 1].index >= rs[i].index {
        return Err(InvalidInput);
      }
      i := i + 1;
    }
    for i := 0 to |rs|
      invariant forall a :: 0 <= a < i ==> !AllZero(rs[a].epochId)
    {
      if AllZero(rs[i].epochId) {
        return Err(InvalidInput);
      }
    }
    return Ok(());
  }

  /** What an output may hold after a seal that should write `s`: all of it, or a prefix if the output failed. */
  ghost predicate Wrote(before: bytes, after: bytes, s: Sealing, outputFailed: bool, r: Outcome<Report>) {
    if outputFailed then r == Err(Io) && before <= after <= before + s.written
    else r == s.outcome && after == before + s.written
  }

  /** Everything before the first write; nothing here touches the input or the output. */
  method PrepareSeal(c: Primitives, o: Options, dek: bytes, rng: nat -> bytes) returns (r: Outcome<Prepared>)
    requires Typed(o) && Lawful(c) && |dek| == KEY_LEN
    ensures r == Prepare(c, o, dek, rng)
  {
    hide Lawful, H.Validate, H.Wire, K.Valid, K.Wire, M.ToCbor, W.WrapSlots, SaltFrom, H.ObjectIdOk;
    if ValidateChunkSize(o.chunkSize).Err? {
      return Err(InvalidChunkSize);
    }
    var id := H.FillObjectIdField(o.objectId);
    if id.Err? {
      return Err(id.error);
    }
    if o.plaintextSize == 0 || o.plaintextSize % o.chunkSize != 0 {
      return Err(InvalidInput);
    }
    if |o.recipients| == 0 || (|o.recipients| == 1 && !o.allowSingle) {
      return Err(InvalidInput);
    }
    var metadata := M.WriteCbor(M.Meta(o.plaintextSize, o.digest), o.chunkSize);
    if metadata.Err? {
      return Err(metadata.error);
    }
    var salt := DeriveSalt(c, dek, Binding(id.value, o.digest, metadata.value));
    SaltIsNonzero(c, dek, Binding(id.value, o.digest, metadata.value), 0);
    if salt.Err? {
      return Err(salt.error);
    }
    var slots := W.WrapToAll(c, dek, id.value, o.recipients, rng);
    if slots.Err? {
      return Err(slots.error);
    }
    W.WrappedIsTyped(c, dek, id.value, o.recipients, rng);
    var keyFrame := K.SerializeFrame(slots.value);
    if keyFrame.Err? {
      return Err(keyFrame.error);
    }
    if |keyFrame.value| >= U32_LIMIT {
      return Err(InvalidKeyFrameLength);
    }
    var header := NewHeader(o, salt.value, |metadata.value|, |keyFrame.value|);
    if H.Validate(header).Err? {
      return Err(H.Validate(header).error);
    }
    TypedWhenValid(header);
    var keys := DeriveKeys(c, dek, salt.value, c.sha256(H.Wire(header) + keyFrame.value));
    return Ok(Prepared(header, slots.value, keys, metadata.value, keyFrame.value,
                       c.aeadSeal(keys.metadataKey, Zeros(12), metadata.value)));
  }

  lemma TypedWhenValid(h: H.Header)
    requires H.Validate(h).Ok?
    ensures h.metadataFrameLen < U64_LIMIT && h.keyFrameLen < U32_LIMIT
  {
  }

  method SealWithMaterial(c: Primitives, input: Source, out: Sink, o: Options, dek: bytes, rng: nat -> bytes)
    returns (r: Outcome<Report>, ghost outputFailed: bool)
    requires Typed(o) && Lawful(c) && |dek| == KEY_LEN && input.Valid() && input.pos == 0
    modifies input, out
    ensures var s := Sealed(c, input.input, o, dek, rng);
      && Wrote(old(out.written), out.written, s, outputFailed, r)
      && (|s.written| >= U64_LIMIT ==> outputFailed)
      && (outputFailed ==> out.capacity.Some? || |s.written| >= U64_LIMIT)
  {
    hide Lawful, Prepare, Frames, Front, Payload;
    var prepared := PrepareSeal(c, o, dek, rng);
    outputFailed := false;
    if prepared.Err? {
      return Err(prepared.error), false;
    }
    var writer := new HashingWriter(out);
    r := StreamOut(c, input, writer, o, prepared.value);
    outputFailed := writer.failed;
  }

  method StreamOut(c: Primitives, input: Source, writer: HashingWriter, o: Options, p: Prepared)
    returns (r: Outcome<Report>)
    requires Lawful(c) && input.Valid() && input.pos == 0 && writer.Valid() && !writer.failed && writer.hashed == []
    requires H.Valid(p.header) && o.chunkSize > 0 && o.plaintextSize % o.chunkSize == 0
    modifies input, writer, writer.inner
    ensures var s := Payload(c, input.input, o, p);
      && Wrote([], writer.hashed, s, writer.failed, r)
      && (writer.failed ==> writer.inner.capacity.Some? || |s.written| >= U64_LIMIT)
      && writer.Valid()
  {
    hide Lawful, Frames, Front, Close, Delivered, Payload;
    ghost var s := Payload(c, input.input, o, p);
    ghost var frames := PayloadBody(c, input.input, o, p);
    var front := WriteFront(writer, p);
    if front.Err? {
      return Err(front.error);
    }
    var total := o.plaintextSize / o.chunkSize;
    DivMod(o.plaintextSize, o.chunkSize);
    var digest := EncryptPayload(c, input, writer, p.keys.payloadKey, o.chunkSize, total);
    if digest.Err? {
      return Err(digest.error);
    }
    if digest.value != o.digest {
      return Err(PlaintextDigestMismatch);
    }
    var eof := input.EnsureEof(PlaintextSizeMismatch);
    if eof.Err? {
      return Err(eof.error);
    }
    r := Finish(c, writer, o, p);
  }

  /** Every payload seal starts with the front and the frames of the chunks delivered. */
  lemma PayloadBody(c: Primitives, input: Input, o: Options, p: Prepared) returns (frames: bytes)
    requires H.Valid(p.header) && o.chunkSize > 0 && o.plaintextSize % o.chunkSize == 0
    ensures var s := Payload(c, input, o, p);
      var total := o.plaintextSize / o.chunkSize;
      var n := Delivered(input.data, o.chunkSize, total);
      && total * o.chunkSize == o.plaintextSize
      && frames == Frames(c, p.keys.payloadKey, input.data, o.chunkSize, total, n)
      && Front(p) + frames <= s.written
      && (n < total ==> s == Sealing(Front(p) + frames, Err(if input.broken then Io else UnexpectedEof)))
      && (n == total ==>
          s == if c.sha256(input.data[..o.plaintextSize]) != o.digest then
                 Sealing(Front(p) + frames, Err(PlaintextDigestMismatch))
               else if o.plaintextSize < |input.data| then Sealing(Front(p) + frames, Err(PlaintextSizeMismatch))
               else if input.broken then Sealing(Front(p) + frames, Err(Io))
               else Close(c, o, p, Front(p) + frames + FOOTER))
  {
    hide Frames, Front, Delivered, StoredSizeFromParts;
    DivMod(o.plaintextSize, o.chunkSize);
    var total := o.plaintextSize / o.chunkSize;
    frames := Frames(c, p.keys.payloadKey, input.data, o.chunkSize, total, Delivered(input.data, o.chunkSize, total));
  }

  method WriteFront(writer: HashingWriter, p: Prepared) returns (r: Outcome<()>)
    requires writer.Valid() && !writer.failed && writer.hashed == [] && H.Valid(p.header)
    modifies writer, writer.inner
    ensures writer.Valid() && r == if writer.failed then Err(Io) else Ok(())
    ensures writer.hashed <= Front(p) && (!writer.failed ==> writer.hashed == Front(p))
    ensures writer.failed ==> writer.inner.capacity.Some? || |Front(p)| >= U64_LIMIT
  {
    hide H.Wire;
    r := writer.WriteAll(H.Wire(p.header));
    if r.Err? {
      return;
    }
    r := writer.WriteAll(p.keyFrame);
    if r.Err? {
      return;
    }
    r := writer.WriteAll(p.metadataFrame);
  }

  method Finish(c: Primitives, writer: HashingWriter, o: Options, p: Prepared) returns (r: Outcome<Report>)
    requires writer.Valid() && !writer.failed && o.chunkSize > 0
    modifies writer, writer.inner
    ensures var s := Close(c, o, p, old(writer.hashed) + FOOTER);
      && old(writer.hashed) <= writer.hashed
      && Wrote([], writer.hashed, s, writer.failed, r)
      && (writer.failed ==> writer.inner.capacity.Some? || |s.written| >= U64_LIMIT)
      && writer.Valid()
  {
    hide StoredSizeFromParts;
    ghost var body := writer.hashed + FOOTER;
    var ok := writer.WriteAll(FOOTER);
    if ok.Err? {
      return Err(ok.error);
    }
    var size := StoredSizeFromParts(o.chunkSize, |p.keyFrame|, |p.metadata| + TAG_LEN, o.plaintextSize);
    if size.Err? {
      return Err(size.error);
    }
    if size.value < writer.count {
      return Err(SizeOverflow);
    }
    ok := WriteZeroFill(writer, size.value - writer.count);
    if ok.Err? {
      return Err(ok.error);
    }
    return Ok(Report(p.header, p.slots, |p.metadata|, |p.metadata| + TAG_LEN, size.value,
                     Quo(size.value, o.chunkSize), c.sha256(writer.hashed), o.plaintextSize, o.digest));
  }

  /** `seal`: the recipient set, then both entropy draws, and only then anything that can write. */
  method SealWithEntropy(c: Primitives, input: Source, out: Sink, o: Options, dek: Option<bytes>,
      rng: Option<nat -> bytes>)
    returns (r: Outcome<Report>, ghost outputFailed: bool)
    requires Typed(o) && Lawful(c) && (dek.Some? ==> |dek.value| == KEY_LEN) && input.Valid() && input.pos == 0
    modifies input, out
    ensures !RecipientsOk(o.recipients) ==> r == Err(InvalidInput) && out.written == old(out.written)
    ensures RecipientsOk(o.recipients) && (dek.None? || rng.None?) ==>
      r == Err(EntropyUnavailable) && out.written == old(out.written)
    ensures RecipientsOk(o.recipients) && dek.Some? && rng.Some? ==>
      var s := Sealed(c, input.input, o, dek.value, rng.value);
      && Wrote(old(out.written), out.written, s, outputFailed, r)
      && (outputFailed ==> out.capacity.Some? || |s.written| >= U64_LIMIT)
  {
    hide Sealed, Lawful;
    outputFailed := false;
    var ok := ValidateRecipientSet(o.recipients);
    if ok.Err? {
      return Err(ok.error), false;
    }
    if dek.None? || rng.None? {
      return Err(EntropyUnavailable), false;
    }
    r, outputFailed := SealWithMaterial(c, input, out, o, dek.value, rng.value);
  }
}
