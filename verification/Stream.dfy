/** Envelope geometry in checked 64-bit arithmetic, and the STREAM nonces of payload frames. */
module Stream {
  import opened Bits
  import opened Outcomes
  import opened ByteStrings
  import opened Envelope
  import opened Arithmetic

  function CheckedAdd(a: nat, b: nat): Option<nat> {
    if a + b < U64_LIMIT then Some(a + b) else None
  }

  function CheckedMul(a: nat, b: nat): Option<nat> {
    if a * b < U64_LIMIT then Some(a * b) else None
  }

  /** Eleven bytes of big-endian counter, then the final flag. */
  function Nonce(counter: nat, final: bool): bytes {
    [0, 0, 0] + BigEndian(counter, 8) + [if final then 1 else 0]
  }

  /** Three zero bytes, the frame index in eight, and 1 exactly on the final frame. */
  lemma NonceLayout(counter: nat, final: bool)
    requires counter < U64_LIMIT
    ensures
      var n := Nonce(counter, final);
      && |n| == 12 && n[..3] == [0, 0, 0] && FromBigEndian(n[3..11]) == counter
      && (n[11] == 1 <==> final) && (n[11] == 0 <==> !final)
  {
    hide BigEndian, FromBigEndian, Pow256;
    Pow256Values();
    DecodeBigEndian(counter, 8);
    assert Nonce(counter, final)[3..11] == BigEndian(counter, 8);
  }

  /** No two payload frames of an object share a nonce: it determines the index and the finality. */
  lemma NonceIsUnique(i: nat, f: bool, j: nat, g: bool)
    requires i < U64_LIMIT && j < U64_LIMIT && Nonce(i, f) == Nonce(j, g)
    ensures i == j && f == g
  {
    hide BigEndian, FromBigEndian, Pow256;
    Pow256Values();
    DecodeBigEndian(i, 8);
    DecodeBigEndian(j, 8);
    assert Nonce(i, f)[3..11] == BigEndian(i, 8) && Nonce(j, g)[3..11] == BigEndian(j, 8);
    assert Nonce(i, f)[11] == (if f then 1 else 0) && Nonce(j, g)[11] == (if g then 1 else 0);
  }

  function ChunkCount(plaintextSize: nat, chunkSize: nat): Outcome<nat> {
    if chunkSize == 0 || plaintextSize == 0 || plaintextSize % chunkSize != 0 then Err(InvalidMetadataField)
    else Ok(plaintextSize / chunkSize)
  }

  function PayloadFrameLen(plaintextSize: nat, chunkSize: nat): Outcome<nat> {
    var chunks := ChunkCount(plaintextSize, chunkSize);
    if chunks.Err? then chunks
    else
      var tags := CheckedMul(TAG_LEN, chunks.value);
      if tags.None? then Err(SizeOverflow)
      else
        var sum := CheckedAdd(plaintextSize, tags.value);
        if sum.None? then Err(SizeOverflow) else Ok(sum.value)
  }

  /** The next multiple of `multiple`, in checked arithmetic. */
  function RoundUp(value: nat, multiple: nat): Outcome<nat> {
    if multiple == 0 then Err(SizeOverflow)
    else if value % multiple == 0 then Ok(value)
    else
      var sum := CheckedAdd(value, multiple - value % multiple);
      if sum.None? then Err(SizeOverflow) else Ok(sum.value)
  }

  /** The offset just past the footer, given the payload length. */
  function FooterEnd(keyFrameLen: nat, metadataFrameLen: nat, payloadLen: nat): Outcome<nat> {
    var a := CheckedAdd(HEADER_LEN, keyFrameLen);
    if a.None? then Err(SizeOverflow)
    else
      var b := CheckedAdd(a.value, metadataFrameLen);
      if b.None? then Err(SizeOverflow)
      else
        var c := CheckedAdd(b.value, payloadLen);
        if c.None? then Err(SizeOverflow)
        else
          var d := CheckedAdd(c.value, |FOOTER|);
          if d.None? then Err(SizeOverflow) else Ok(d.value)
  }

  function StoredSizeFromParts(chunkSize: nat, keyFrameLen: nat, metadataFrameLen: nat,
      plaintextSize: nat): Outcome<nat>
  {
    var payload := PayloadFrameLen(plaintextSize, chunkSize);
    if payload.Err? then payload
    else
      var end := FooterEnd(keyFrameLen, metadataFrameLen, payload.value);
      if end.Err? then end else RoundUp(end.value, chunkSize)
  }

  /** The stored offset of payload frame `b`. */
  function CipherOffset(keyFrameLen: nat, metadataFrameLen: nat, chunkSize: nat, b: nat): Outcome<nat> {
    var stride := CheckedAdd(chunkSize, TAG_LEN);
    if stride.None? then Err(SizeOverflow)
    else
      var a := CheckedAdd(HEADER_LEN, keyFrameLen);
      if a.None? then Err(SizeOverflow)
      else
        var base := CheckedAdd(a.value, metadataFrameLen);
        if base.None? then Err(SizeOverflow)
        else
          var step := CheckedMul(b, stride.value);
          if step.None? then Err(SizeOverflow)
          else
            var sum := CheckedAdd(base.value, step.value);
            if sum.None? then Err(SizeOverflow) else Ok(sum.value)
  }

  /** Chunk `i` of a plaintext. */
  function Chunk(plain: bytes, chunkSize: nat, i: nat): (chunk: bytes)
    requires (i + 1) * chunkSize <= |plain|
    ensures |chunk| == chunkSize
  {
    Successor(i, chunkSize);
    plain[i * chunkSize..(i + 1) * chunkSize]
  }

  // ----- the same sizes without overflow

  /** Where frame `b` starts, and, for b the chunk count, where the footer starts. */
  function Offset(keyFrameLen: nat, metadataFrameLen: nat, chunkSize: nat, b: nat): nat {
    HEADER_LEN + keyFrameLen + metadataFrameLen + b * (chunkSize + TAG_LEN)
  }

  /** The whole stored object: frames, footer, and fill to a multiple of the chunk size. */
  function StoredSize(keyFrameLen: nat, metadataFrameLen: nat, chunkSize: nat, chunks: nat): nat
    requires chunkSize > 0
  {
    Ceil(Offset(keyFrameLen, metadataFrameLen, chunkSize, chunks) + |FOOTER|, chunkSize)
  }

  lemma RoundUpIsCeil(value: nat, multiple: nat)
    requires multiple > 0 && value < U64_LIMIT
    ensures RoundUp(value, multiple)
         == if Ceil(value, multiple) < U64_LIMIT then Ok(Ceil(value, multiple)) else Err(SizeOverflow)
  {
  }

  lemma StoredSizeClosedForm(chunkSize: nat, keyFrameLen: nat, metadataFrameLen: nat, chunks: nat)
    requires chunkSize > 0 && chunks > 0
    ensures var size := StoredSize(keyFrameLen, metadataFrameLen, chunkSize, chunks);
      StoredSizeFromParts(chunkSize, keyFrameLen, metadataFrameLen, chunks * chunkSize)
      == if size < U64_LIMIT then Ok(size) else Err(SizeOverflow)
  {
    MultipleMod(chunks, chunkSize);
    assert chunks * (chunkSize + TAG_LEN) == chunks * chunkSize + TAG_LEN * chunks;
  }

  lemma CipherOffsetClosedForm(keyFrameLen: nat, metadataFrameLen: nat, chunkSize: nat, b: nat)
    requires chunkSize < U32_LIMIT
    ensures var at := Offset(keyFrameLen, metadataFrameLen, chunkSize, b);
      CipherOffset(keyFrameLen, metadataFrameLen, chunkSize, b) == if at < U64_LIMIT then Ok(at) else Err(SizeOverflow)
  {
  }

  /** The stored size determines the chunk count: the fill is shorter than one frame. */
  lemma ChunksFromStoredSize(keyFrameLen: nat, metadataFrameLen: nat, chunkSize: nat, chunks: nat)
    requires chunkSize > 0
    ensures var size := StoredSize(keyFrameLen, metadataFrameLen, chunkSize, chunks);
      && size >= Offset(keyFrameLen, metadataFrameLen, chunkSize, 0) + |FOOTER|
      && (size - Offset(keyFrameLen, metadataFrameLen, chunkSize, 0) - |FOOTER|) / (chunkSize + TAG_LEN) == chunks
  {
    var size := StoredSize(keyFrameLen, metadataFrameLen, chunkSize, chunks);
    var rest := size - Offset(keyFrameLen, metadataFrameLen, chunkSize, 0) - |FOOTER|;
    var stride := chunkSize + TAG_LEN;
    DivUnique(rest, stride, chunks, rest - chunks * stride);
  }
}
