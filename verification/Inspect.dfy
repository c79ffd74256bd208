/** Keyless inspection: the geometry of a stored object, recomputed from its header and its size alone. */
module Inspect {
  import opened Bits
  import opened Outcomes
  import opened ByteStrings
  import opened Envelope
  import opened Stream
  import opened InputOutput
  import opened Arithmetic
  import opened Open
  import H = EnvelopeHeader
  import K = KeyFrame
  import M = Metadata
  import W = Wrap

  const BUFFER: nat := 65536

  datatype Inspection = Inspection(
    header: H.Header, slots: seq<K.Slot>, storedSize: nat, storedDigest: bytes,
    chunkCount: nat, plaintextSize: nat, footerOffset: nat)

  /** The payload geometry that a stored size implies. */
  datatype Shape = Shape(chunkCount: nat, plaintextSize: nat, footerOffset: nat)

  function WholeFrames(len: nat, stride: nat): nat
    requires stride > 0
  {
    len / stride
  }

  function ShapeOf(h: H.Header, size: nat): Outcome<Shape>
    requires h.chunkSize > 0
  {
    var stride := CheckedAdd(h.chunkSize, TAG_LEN);
    if stride.None? then Err(SizeOverflow)
    else if size < PayloadStart(h) + |FOOTER| then Err(UnexpectedEof)
    else
      var chunks := WholeFrames(size - PayloadStart(h) - |FOOTER|, stride.value);
      if chunks == 0 then Err(UnexpectedEof) else Check(h, size, chunks, stride.value)
  }

  function Check(h: H.Header, size: nat, chunks: nat, stride: nat): Outcome<Shape> {
    var plain, payload := CheckedMul(chunks, h.chunkSize), CheckedMul(chunks, stride);
    if plain.None? || payload.None? then Err(SizeOverflow)
    else
      var end := FooterEnd(h.keyFrameLen, h.metadataFrameLen, payload.value);
      if end.Err? then Err(end.error)
      else
        var expected := RoundUp(end.value, h.chunkSize);
        if expected.Err? then Err(expected.error)
        else if expected.value != size then Err(TrailingData)
        else Ok(Shape(chunks, plain.value, PayloadStart(h) + payload.value))
  }

  function Inspected(c: Primitives, input: Input): Outcome<Inspection> {
    var h := ReadHeader(input);
    if h.Err? then Err(h.error)
    else
      var slots := ReadSlots(input, h.value);
      if slots.Err? then Err(slots.error)
      else if |input.data| % h.value.chunkSize != 0 then Err(TrailingData)
      else if |input.data| < PayloadStart(h.value) + |FOOTER| then Err(UnexpectedEof)
      else if input.broken then Err(Io)
      else
        var shape := ShapeOf(h.value, |input.data|);
        if shape.Err? then Err(shape.error)
        else
          var at := shape.value.footerOffset;
          var footer := ReadAt(input, at, |FOOTER|);
          if footer.Err? then Err(footer.error)
          else if footer.value != FOOTER then Err(InvalidFooter)
          else if !AllZero(input.data[at + |FOOTER|..]) then Err(FillNotZero)
          else Ok(Inspection(h.value, slots.value, |input.data|, c.sha256(input.data), shape.value.chunkCount,
                             shape.value.plaintextSize, at))
  }

  /** The shape is recovered exactly from a stored size that any chunk count produces, and from no other size. */
  lemma ShapeIsUnique(h: H.Header, size: nat, chunks: nat)
    requires 0 < h.chunkSize < U32_LIMIT && chunks > 0 && size < U64_LIMIT
    ensures ShapeOf(h, size).Ok? && ShapeOf(h, size).value.chunkCount == chunks
       <==> size == StoredSize(h.keyFrameLen, h.metadataFrameLen, h.chunkSize, chunks)
    ensures ShapeOf(h, size).Ok? && ShapeOf(h, size).value.chunkCount == chunks ==>
      ShapeOf(h, size).value == Shape(chunks, chunks * h.chunkSize, FrameAt(PayloadStart(h), h.chunkSize, chunks))
  {
    hide StoredSize, Check, FrameAt, WholeFrames, PayloadStart;
    FramesOfStoredSize(h, chunks);
    CheckValue(h, size, chunks);
    if ShapeOf(h, size).Ok? {
      CheckCount(h, size, WholeFrames(size - PayloadStart(h) - |FOOTER|, h.chunkSize + TAG_LEN));
    }
  }

  lemma FramesOfStoredSize(h: H.Header, chunks: nat)
    requires h.chunkSize > 0
    ensures var size := StoredSize(h.keyFrameLen, h.metadataFrameLen, h.chunkSize, chunks);
      && PayloadStart(h) + |FOOTER| <= size
      && WholeFrames(size - PayloadStart(h) - |FOOTER|, h.chunkSize + TAG_LEN) == chunks
  {
    hide StoredSize;
    ChunksFromStoredSize(h.keyFrameLen, h.metadataFrameLen, h.chunkSize, chunks);
    assert PayloadStart(h) == Offset(h.keyFrameLen, h.metadataFrameLen, h.chunkSize, 0);
  }

  lemma CheckCount(h: H.Header, size: nat, chunks: nat)
    ensures Check(h, size, chunks, h.chunkSize + TAG_LEN).Ok? ==>
      Check(h, size, chunks, h.chunkSize + TAG_LEN).value.chunkCount == chunks
  {
    hide FooterEnd, RoundUp, CheckedMul;
  }

  lemma CheckValue(h: H.Header, size: nat, chunks: nat)
    requires 0 < h.chunkSize && chunks > 0 && size < U64_LIMIT
    ensures Check(h, size, chunks, h.chunkSize + TAG_LEN).Ok?
       <==> size == StoredSize(h.keyFrameLen, h.metadataFrameLen, h.chunkSize, chunks)
    ensures Check(h, size, chunks, h.chunkSize + TAG_LEN).Ok? ==>
      Check(h, size, chunks, h.chunkSize + TAG_LEN).value
      == Shape(chunks, chunks * h.chunkSize, FrameAt(PayloadStart(h), h.chunkSize, chunks))
  {
    hide RoundUp, Ceil;
    var stride := h.chunkSize + TAG_LEN;
    MulMonotone(h.chunkSize, stride, chunks);
    var end := Offset(h.keyFrameLen, h.metadataFrameLen, h.chunkSize, chunks) + |FOOTER|;
    assert end == PayloadStart(h) + chunks * stride + |FOOTER|;
    if end < U64_LIMIT {
      RoundUpIsCeil(end, h.chunkSize);
    }
  }

  /** The data are, for some chunk count, exactly as long as its stored size, with footer and zero fill in place. */
  ghost predicate Shaped(input: Input, h: H.Header, chunks: nat)
    requires h.chunkSize > 0
  {
    var size := StoredSize(h.keyFrameLen, h.metadataFrameLen, h.chunkSize, chunks);
    var at := FrameAt(PayloadStart(h), h.chunkSize, chunks);
    && chunks > 0 && |input.data| == size && at + |FOOTER| <= size
    && input.data[at..at + |FOOTER|] == FOOTER && AllZero(input.data[at + |FOOTER|..])
  }

  /** Inspection succeeds exactly on readable inputs whose front parses and which have the shape of some chunk count. */
  lemma InspectAccepts(c: Primitives, input: Input)
    requires |input.data| < U64_LIMIT
    ensures Inspected(c, input).Ok? <==>
      && !input.broken && ReadHeader(input).Ok? && ReadSlots(input, ReadHeader(input).value).Ok?
      && exists chunks: nat :: Shaped(input, ReadHeader(input).value, chunks)
  {
    hide ReadHeader, ReadSlots, ShapeOf, StoredSize, FrameAt, AllZero;
    if ReadHeader(input).Ok? {
      var h := ReadHeader(input).value;
      HeaderIsSmall(h);
      if Inspected(c, input).Ok? {
        var chunks := ShapeOf(h, |input.data|).value.chunkCount;
        SomeChunks(h, |input.data|);
        ShapeIsUnique(h, |input.data|, chunks);
        assert Shaped(input, h, chunks);
      }
      if chunks: nat :| Shaped(input, h, chunks) {
        ShapeIsUnique(h, |input.data|, chunks);
        StoredIsWhole(h, chunks);
      }
    }
  }

  /** And it reports the front, the size and digest of the data, and the sizes of that chunk count. */
  lemma InspectReports(c: Primitives, input: Input, h: H.Header, slots: seq<K.Slot>)
    requires |input.data| < U64_LIMIT && Inspected(c, input).Ok?
    requires ReadHeader(input) == Ok(h) && ReadSlots(input, h) == Ok(slots)
    ensures
      var n := Inspected(c, input).value.chunkCount;
      && Shaped(input, h, n)
      && Inspected(c, input).value
         == Inspection(h, slots, |input.data|, c.sha256(input.data), n, n * h.chunkSize,
                       FrameAt(PayloadStart(h), h.chunkSize, n))
  {
    hide ReadHeader, ReadSlots, ShapeOf, StoredSize, FrameAt, AllZero;
    HeaderIsSmall(h);
    SomeChunks(h, |input.data|);
    ShapeIsUnique(h, |input.data|, ShapeOf(h, |input.data|).value.chunkCount);
  }

  lemma HeaderIsSmall(h: H.Header)
    requires H.Valid(h) && h.chunkSize > 0
    ensures h.chunkSize < U32_LIMIT
  {
  }

  lemma SomeChunks(h: H.Header, size: nat)
    requires h.chunkSize > 0 && ShapeOf(h, size).Ok?
    ensures ShapeOf(h, size).value.chunkCount > 0
  {
    hide FooterEnd, RoundUp, CheckedMul;
  }

  /** Whatever a recipient can open whole, anyone can inspect, with the same counts, sizes and offsets. */
  lemma InspectAgreesWithOpen(c: Primitives, input: Input, key: W.PrivateKey)
    requires Opened(c, input, key).outcome.Ok?
    ensures
      var opening := Opened(c, input, key);
      var report := opening.outcome.value;
      var h := report.header;
      && Inspected(c, input).Ok?
      && var found := Inspected(c, input).value;
      && found.header == h && found.slots == report.slots
      && found.storedSize == report.storedSize == |input.data| && found.storedDigest == c.sha256(input.data)
      && found.plaintextSize == report.plaintextSize == |opening.released| == found.chunkCount * h.chunkSize
      && found.footerOffset == FrameAt(PayloadStart(h), h.chunkSize, found.chunkCount)
  {
    hide Opened, Authenticate, Sound, ReadHeader, ReadSlots, ShapeOf, StoredSize, Decodes;
    OpenAccepts(c, input, key);
    var ctx := Authenticate(c, input, key).value;
    var plain := Opened(c, input, key).released;
    AuthenticatedFront(c, input, key);
    ChunkIsSmall(ctx);
    Geometry(ctx);
    TailAccepts(input, ctx);
    DecodesLength(c, input, ctx, plain);
    var h, total := ctx.header, Chunks(ctx);
    StoredIsWhole(h, total);
    ShapeIsUnique(h, |input.data|, total);
    AllZeroIsZeros(input.data[FrameAt(PayloadStart(h), h.chunkSize, total) + |FOOTER|..]);
  }

  lemma AuthenticatedFront(c: Primitives, input: Input, key: W.PrivateKey)
    requires Authenticate(c, input, key).Ok?
    ensures var ctx := Authenticate(c, input, key).value;
      ReadHeader(input) == Ok(ctx.header) && ReadSlots(input, ctx.header) == Ok(ctx.slots)
  {
    hide ReadHeader, ReadSlots, ReadMetadata, W.UnwrapDek, KeysOf;
  }

  lemma DecodesLength(c: Primitives, input: Input, ctx: Context, plain: bytes)
    requires Sound(ctx) && Stored(c, input, ctx, plain)
    ensures |plain| == Chunks(ctx) * ctx.header.chunkSize
  {
    hide Sound, DecodesAt, StoredSize;
    Geometry(ctx);
    TailAccepts(input, ctx);
  }

  lemma StoredIsWhole(h: H.Header, chunks: nat)
    requires h.chunkSize > 0
    ensures var size := StoredSize(h.keyFrameLen, h.metadataFrameLen, h.chunkSize, chunks);
      size % h.chunkSize == 0 && size >= PayloadStart(h) + |FOOTER|
  {
    MulMonotone(0, chunks, h.chunkSize + TAG_LEN);
  }

  // ----- inspection as it runs

  method InspectReader(c: Primitives, source: Source) returns (r: Outcome<Inspection>)
    requires source.Valid()
    modifies source
    ensures r == Inspected(c, source.input)
  {
    hide H.Parse, K.Parse, H.Valid, ShapeOf, AllZero;
    var input := source.input;
    source.Seek(0);
    var headerBytes := source.ReadExact(HEADER_LEN);
    if headerBytes.Err? {
      return Err(headerBytes.error);
    }
    var header := H.Parse(headerBytes.value);
    assert ReadHeader(input) == header;
    if header.Err? {
      return Err(header.error);
    }
    var h := header.value;
    var keyFrameBytes := source.ReadExact(h.keyFrameLen);
    if keyFrameBytes.Err? {
      return Err(keyFrameBytes.error);
    }
    var slots := K.Parse(keyFrameBytes.value);
    assert ReadSlots(input, h) == slots;
    if slots.Err? {
      return Err(slots.error);
    }
    var size := |input.data|;
    if size % h.chunkSize != 0 {
      return Err(TrailingData);
    }
    if size < PayloadStart(h) + |FOOTER| {
      return Err(UnexpectedEof);
    }
    source.Seek(0);
    var digest := DigestRest(c, source);
    if digest.Err? {
      return Err(digest.error);
    }
    var shape := ShapeOf(h, size);
    if shape.Err? {
      return Err(shape.error);
    }
    r := CheckTail(source, shape.value.footerOffset, Inspection(
      h, slots.value, size, digest.value, shape.value.chunkCount, shape.value.plaintextSize, shape.value.footerOffset));
  }

  /** Hashes everything from the current position on, buffer by buffer. */
  method DigestRest(c: Primitives, source: Source) returns (r: Outcome<bytes>)
    requires source.Valid() && source.pos == 0
    modifies source
    ensures source.Valid() && r == if source.input.broken then Err(Io) else Ok(c.sha256(source.input.data))
  {
    var data := source.input.data;
    var seen: bytes := [];
    while true
      invariant source.Valid() && seen == data[..source.pos]
      decreases |data| - source.pos
    {
      var b := source.Read(BUFFER);
      if b.Err? {
        return Err(b.error);
      }
      if |b.value| == 0 {
        break;
      }
      seen := seen + b.value;
    }
    assert seen == data;
    return Ok(c.sha256(seen));
  }

  method CheckTail(source: Source, at: nat, found: Inspection) returns (r: Outcome<Inspection>)
    requires source.Valid() && !source.input.broken
    modifies source
    ensures var footer := ReadAt(source.input, at, |FOOTER|);
      r == if footer.Err? then Err(footer.error)
           else if footer.value != FOOTER then Err(InvalidFooter)
           else if !AllZero(source.input.data[at + |FOOTER|..]) then Err(FillNotZero)
           else Ok(found)
  {
    var data := source.input.data;
    source.Seek(at);
    var footer := source.ReadExact(|FOOTER|);
    if footer.Err? {
      return Err(footer.error);
    }
    if footer.value != FOOTER {
      return Err(InvalidFooter);
    }
    var start := source.pos;
    while true
      invariant start <= source.pos && source.Valid() && AllZero(data[start..source.pos])
      decreases |data| - source.pos
    {
      var was := source.pos;
      // reading for the digest has already reached the end without an error
      var b := source.Read(BUFFER);
      if |b.value| == 0 {
        break;
      }
      assert data[start..source.pos] == data[start..was] + b.value;
      assert data[start..][was - start..source.pos - start] == b.value;
      if !AllZero(b.value) {
        return Err(FillNotZero);
      }
    }
    assert data[start..source.pos] == data[start..];
    return Ok(found);
  }
}
