/** Opening a byte range: only the frames that hold requested bytes are fetched and authenticated. */
module Range {
  import opened Bits
  import opened Outcomes
  import opened ByteStrings
  import opened Envelope
  import opened Stream
  import opened InputOutput
  import opened Arithmetic
  import opened Open
  import opened Kdf
  import H = EnvelopeHeader
  import K = KeyFrame
  import M = Metadata
  import W = Wrap

  // ----- geometry

  /** The covering chunks and the stored bytes that hold their frames. */
  datatype Covering = Covering(
    start: nat, len: nat, firstChunk: Option<nat>, chunkCount: nat, storedStart: Option<nat>, storedLen: nat)

  /** The end of a range that lies inside the plaintext. */
  function ValidateRange(start: nat, len: nat, plaintextSize: nat): (r: Outcome<nat>)
    ensures r.Ok? <==> start + len < U64_LIMIT && start + len <= plaintextSize
    ensures r.Ok? ==> r.value == start + len
  {
    var end := CheckedAdd(start, len);
    if end.None? then Err(InvalidInput)
    else if len == 0 then (if start > plaintextSize then Err(InvalidInput) else Ok(end.value))
    else if end.value > plaintextSize then Err(InvalidInput)
    else Ok(end.value)
  }

  /** The chunk that holds the byte at `pos`. */
  function ChunkOf(pos: nat, chunkSize: nat): nat
    requires chunkSize > 0
  {
    pos / chunkSize
  }

  function RangeGeometry(ctx: Context, start: nat, len: nat): Outcome<Covering>
    requires Sound(ctx)
  {
    var end := ValidateRange(start, len, ctx.meta.plaintextSize);
    if end.Err? then Err(end.error)
    else if len == 0 then Ok(Covering(start, len, None, 0, None, 0))
    else
      var size := ctx.header.chunkSize;
      FrameGeometry(ctx.header, start, len, ChunkOf(start, size), ChunkOf(end.value - 1, size))
  }

  /** The stored stretch of frames `first` to `last`. */
  function FrameGeometry(h: H.Header, start: nat, len: nat, first: nat, last: nat): Outcome<Covering> {
    if last < first then Err(SizeOverflow)
    else
      var stride := CheckedAdd(h.chunkSize, TAG_LEN);
      if stride.None? then Err(SizeOverflow)
      else
        var from := CipherOffset(h.keyFrameLen, h.metadataFrameLen, h.chunkSize, first);
        if from.Err? then Err(from.error)
        else
          var lastAt := CipherOffset(h.keyFrameLen, h.metadataFrameLen, h.chunkSize, last);
          if lastAt.Err? then Err(lastAt.error)
          else
            var upTo := CheckedAdd(lastAt.value, stride.value);
            if upTo.None? || upTo.value < from.value then Err(SizeOverflow)
            else Ok(Covering(start, len, Some(first), last - first + 1, Some(from.value), upTo.value - from.value))
  }

  /** Chunk `i` holds a byte of [start, end). */
  predicate Overlaps(chunkSize: nat, i: nat, start: nat, end: nat) {
    i * chunkSize < end && start < (i + 1) * chunkSize
  }

  /** The chunks from `first`, `n` of them, are exactly those that overlap the range. */
  ghost predicate Covers(chunkSize: nat, first: nat, n: nat, start: nat, end: nat) {
    forall i: nat :: first <= i < first + n <==> Overlaps(chunkSize, i, start, end)
  }

  /** All of the chunks from `first`, `n` of them, overlap the range. */
  ghost predicate AllOverlap(chunkSize: nat, first: nat, n: nat, start: nat, end: nat) {
    forall i :: first <= i < first + n ==> Overlaps(chunkSize, i, start, end)
  }

  lemma ChunkHolds(pos: nat, chunkSize: nat)
    requires chunkSize > 0
    ensures ChunkOf(pos, chunkSize) * chunkSize <= pos < (ChunkOf(pos, chunkSize) + 1) * chunkSize
  {
    DivMod(pos, chunkSize);
    Successor(ChunkOf(pos, chunkSize), chunkSize);
  }

  /** The covering chunks of a nonempty range are exactly those that hold one of its bytes. */
  lemma CoversExactly(chunkSize: nat, start: nat, end: nat, i: nat)
    requires chunkSize > 0 && start < end
    ensures ChunkOf(start, chunkSize) <= i <= ChunkOf(end - 1, chunkSize) <==> Overlaps(chunkSize, i, start, end)
    ensures ChunkOf(start, chunkSize) <= ChunkOf(end - 1, chunkSize)
  {
    hide ChunkOf;
    var first, last := ChunkOf(start, chunkSize), ChunkOf(end - 1, chunkSize);
    ChunkHolds(start, chunkSize);
    ChunkHolds(end - 1, chunkSize);
    if i < first {
      MulMonotone(i + 1, first, chunkSize);
    } else {
      MulMonotone(first, i, chunkSize);
    }
    if last < i {
      MulMonotone(last + 1, i, chunkSize);
    } else {
      MulMonotone(i, last, chunkSize);
    }
    if last < first {
      MulMonotone(last + 1, first, chunkSize);
    }
  }

  /** Every geometry reported covers minimally, with one contiguous stretch of whole frames. */
  lemma GeometryCovers(ctx: Context, start: nat, len: nat)
    requires Sound(ctx) && RangeGeometry(ctx, start, len).Ok? && len > 0
    ensures
      var h, g := ctx.header, RangeGeometry(ctx, start, len).value;
      && start + len <= ctx.meta.plaintextSize && start + len < U64_LIMIT && h.chunkSize > 0
      && g.firstChunk == Some(ChunkOf(start, h.chunkSize)) && g.chunkCount > 0
      && Covers(h.chunkSize, g.firstChunk.value, g.chunkCount, start, start + len)
      && g.storedStart == Some(FrameAt(PayloadStart(h), h.chunkSize, g.firstChunk.value))
      && g.storedLen == g.chunkCount * (h.chunkSize + TAG_LEN)
      && g.firstChunk.value + g.chunkCount <= Chunks(ctx)
  {
    hide Sound, Overlaps, CipherOffset, ChunkOf;
    Geometry(ctx);
    var h := ctx.header;
    var end := start + len;
    var first, last := ChunkOf(start, h.chunkSize), ChunkOf(end - 1, h.chunkSize);
    forall i: nat
      ensures first <= i < first + (last - first + 1) <==> Overlaps(h.chunkSize, i, start, end)
    {
      CoversExactly(h.chunkSize, start, end, i);
    }
    CoversExactly(h.chunkSize, start, end, first);
    StretchLength(PayloadStart(h), h.chunkSize + TAG_LEN, first, last);
    LastInside(h.chunkSize, end, Chunks(ctx));
    ChunkIsSmall(ctx);
    CipherOffsetClosedForm(h.keyFrameLen, h.metadataFrameLen, h.chunkSize, first);
    CipherOffsetClosedForm(h.keyFrameLen, h.metadataFrameLen, h.chunkSize, last);
  }

  lemma StretchLength(base: nat, stride: nat, first: nat, last: nat)
    requires first <= last
    ensures base + last * stride + stride - (base + first * stride) == (last - first + 1) * stride
  {
    var n := last - first;
    assert last * stride == first * stride + n * stride;
    Successor(n, stride);
  }

  lemma LastInside(chunkSize: nat, end: nat, total: nat)
    requires chunkSize > 0 && 0 < end <= total * chunkSize
    ensures ChunkOf(end - 1, chunkSize) < total
  {
    hide ChunkOf;
    ChunkHolds(end - 1, chunkSize);
    if total <= ChunkOf(end - 1, chunkSize) {
      MulMonotone(total, ChunkOf(end - 1, chunkSize), chunkSize);
    }
  }

  /** When the whole object fits 64 bits, every in-bounds range has a geometry, inside the stored object. */
  lemma GeometryFits(ctx: Context, start: nat, len: nat)
    requires Sound(ctx) && start + len <= ctx.meta.plaintextSize
    requires var h := ctx.header;
      h.chunkSize > 0 && StoredSize(h.keyFrameLen, h.metadataFrameLen, h.chunkSize, Chunks(ctx)) < U64_LIMIT
    ensures RangeGeometry(ctx, start, len).Ok?
    ensures len > 0 ==>
      var g := RangeGeometry(ctx, start, len).value;
      && g.storedStart.Some?
      && g.storedStart.value + g.storedLen <= FrameAt(PayloadStart(ctx.header), ctx.header.chunkSize, Chunks(ctx))
  {
    hide Sound, FrameGeometry, ChunkOf, StoredSize, FrameAt, Overlaps, Chunks, PayloadStart;
    Geometry(ctx);
    ChunkIsSmall(ctx);
    PlaintextFits(ctx);
    var h := ctx.header;
    if len > 0 {
      LastInside(h.chunkSize, start + len, Chunks(ctx));
      CoversExactly(h.chunkSize, start, start + len, 0);
      FrameGeometryFits(h, start, len, ChunkOf(start, h.chunkSize), ChunkOf(start + len - 1, h.chunkSize), Chunks(ctx));
    }
  }

  lemma FrameGeometryFits(h: H.Header, start: nat, len: nat, first: nat, last: nat, total: nat)
    requires 0 < h.chunkSize < U32_LIMIT && first <= last < total
    requires StoredSize(h.keyFrameLen, h.metadataFrameLen, h.chunkSize, total) < U64_LIMIT
    ensures
      var g := FrameGeometry(h, start, len, first, last);
      && g.Ok? && g.value.storedStart.Some?
      && g.value.storedStart.value + g.value.storedLen <= FrameAt(PayloadStart(h), h.chunkSize, total)
  {
    hide CipherOffset, StoredSize, Offset, FrameAt, PayloadStart;
    FramesInside(h.keyFrameLen, h.metadataFrameLen, h.chunkSize, total, first, last);
    CipherOffsetClosedForm(h.keyFrameLen, h.metadataFrameLen, h.chunkSize, first);
    CipherOffsetClosedForm(h.keyFrameLen, h.metadataFrameLen, h.chunkSize, last);
    OffsetIsFrameAt(h, total);
  }

  lemma OffsetIsFrameAt(h: H.Header, i: nat)
    ensures Offset(h.keyFrameLen, h.metadataFrameLen, h.chunkSize, i) == FrameAt(PayloadStart(h), h.chunkSize, i)
  {
  }

  lemma FramesInside(keyFrameLen: nat, metadataFrameLen: nat, chunkSize: nat, total: nat, first: nat, last: nat)
    requires chunkSize > 0 && first <= last < total
    ensures
      var stride := chunkSize + TAG_LEN;
      && Offset(keyFrameLen, metadataFrameLen, chunkSize, first)
         <= Offset(keyFrameLen, metadataFrameLen, chunkSize, last)
      && Offset(keyFrameLen, metadataFrameLen, chunkSize, last) + stride
         <= Offset(keyFrameLen, metadataFrameLen, chunkSize, total)
         < StoredSize(keyFrameLen, metadataFrameLen, chunkSize, total)
  {
    var stride := chunkSize + TAG_LEN;
    MulMonotone(first, last, stride);
    MulMonotone(last + 1, total, stride);
    Successor(last, stride);
  }

  lemma PlaintextFits(ctx: Context)
    requires Sound(ctx)
    ensures ctx.meta.plaintextSize < U64_LIMIT
  {
  }

  // ----- release

  function Later(a: nat, b: nat): nat {
    if a < b then b else a
  }

  function Earlier(a: nat, b: nat): nat {
    if a < b then a else b
  }

  /** The part of a chunk starting at `at` that lies in [start, end). */
  function Clip(chunk: bytes, at: nat, start: nat, end: nat): bytes
    requires start <= end && at < end && start < at + |chunk|
  {
    chunk[Later(at, start) - at..Earlier(at + |chunk|, end) - at]
  }

  function Selected(chunk: bytes, chunkSize: nat, i: nat, start: nat, end: nat): bytes
    requires |chunk| == chunkSize && start <= end && Overlaps(chunkSize, i, start, end)
  {
    Successor(i, chunkSize);
    Clip(chunk, i * chunkSize, start, end)
  }

  /** Frame `j` of the ranged input, which is chunk first + j of the object. */
  function ReadRangeFrame(c: Primitives, key: bytes, ranged: Input, chunkSize: nat, total: nat, first: nat, j: nat)
    : (r: Outcome<bytes>)
    ensures r.Ok? ==> |r.value| == chunkSize
  {
    var frame := ReadAt(ranged, FrameAt(0, chunkSize, j), chunkSize + TAG_LEN);
    if frame.Err? then Err(frame.error) else DecryptFrame(c, key, frame.value, chunkSize, total, first + j)
  }

  /** The requested bytes in the first `n` covering chunks. */
  function Gathered(c: Primitives, key: bytes, ranged: Input, chunkSize: nat, total: nat, first: nat, start: nat,
      end: nat, n: nat): Stretch
    requires start <= end && AllOverlap(chunkSize, first, n, start, end)
  {
    if n == 0 then Stretch([], None)
    else
      var before := Gathered(c, key, ranged, chunkSize, total, first, start, end, n - 1);
      if before.failure.Some? then before
      else
        var chunk := ReadRangeFrame(c, key, ranged, chunkSize, total, first, n - 1);
        if chunk.Err? then Stretch(before.plain, Some(chunk.error))
        else Stretch(before.plain + Selected(chunk.value, chunkSize, first + n - 1, start, end), None)
  }

  /** What a ranged open releases, and how it ends. */
  datatype Ranging = Ranging(released: bytes, outcome: Outcome<Covering>)

  function FromReader(c: Primitives, ctx: Context, ranged: Input, storedStart: nat, start: nat, len: nat): Ranging
    requires Sound(ctx)
  {
    var g := RangeGeometry(ctx, start, len);
    if g.Err? then Ranging([], Err(g.error))
    else if len == 0 then Ranging([], g)
    else
      GeometryCovers(ctx, start, len);
      if storedStart != g.value.storedStart.value then Ranging([], Err(InvalidInput))
      else
        var s := Gathered(c, ctx.keys.payloadKey, ranged, ctx.header.chunkSize, Chunks(ctx), g.value.firstChunk.value,
                          start, start + len, g.value.chunkCount);
        if s.failure.Some? then Ranging(s.plain, Err(s.failure.value)) else Ranging(s.plain, g)
  }

  function FromSlice(c: Primitives, ctx: Context, data: bytes, start: nat, len: nat): Outcome<(bytes, Covering)>
    requires Sound(ctx)
  {
    var g := RangeGeometry(ctx, start, len);
    if g.Err? then Err(g.error)
    else if g.value.storedStart.None? then Ok(([], g.value))
    else
      var from := g.value.storedStart.value;
      var upTo := CheckedAdd(from, g.value.storedLen);
      if upTo.None? then Err(SizeOverflow)
      else if upTo.value > |data| then Err(UnexpectedEof)
      else
        var r := FromReader(c, ctx, Input(data[from..upTo.value], false), from, start, len);
        if r.outcome.Err? then Err(r.outcome.error) else Ok((r.released, g.value))
  }

  function RangeOpen(c: Primitives, data: bytes, key: W.PrivateKey, start: nat, len: nat): Outcome<(bytes, Covering)> {
    var ctx := Authenticate(c, Input(data, false), key);
    if ctx.Err? then Err(ctx.error) else FromSlice(c, ctx.value, data, start, len)
  }

  /** A range counted from the start of an inner chunk. */
  function InnerRangeOpen(c: Primitives, data: bytes, key: W.PrivateKey, firstInner: nat, start: nat,
      len: nat): Outcome<(bytes, Covering)>
  {
    var ctx := Authenticate(c, Input(data, false), key);
    if ctx.Err? then Err(ctx.error)
    else
      var base := CheckedMul(firstInner, ctx.value.header.chunkSize);
      if base.None? then Err(SizeOverflow)
      else
        var absolute := CheckedAdd(base.value, start);
        if absolute.None? then Err(SizeOverflow) else FromSlice(c, ctx.value, data, absolute.value, len)
  }

  // ----- a range of an accepted object

  /** How far the first `n` covering chunks reach. */
  function Reached(chunkSize: nat, first: nat, start: nat, end: nat, n: nat): nat {
    if n == 0 then start else Earlier((first + n) * chunkSize, end)
  }

  lemma SelectedExtends(plain: bytes, chunkSize: nat, first: nat, start: nat, end: nat, n: nat)
    requires start < end <= |plain| && (first + n + 1) * chunkSize <= |plain|
    requires Overlaps(chunkSize, first + n, start, end) && (n == 0 ==> first * chunkSize <= start)
    requires n > 0 ==> Overlaps(chunkSize, first + n - 1, start, end)
    ensures start <= Reached(chunkSize, first, start, end, n) <= Reached(chunkSize, first, start, end, n + 1) <= end
    ensures plain[start..Reached(chunkSize, first, start, end, n + 1)]
         == plain[start..Reached(chunkSize, first, start, end, n)]
          + Selected(Chunk(plain, chunkSize, first + n), chunkSize, first + n, start, end)
  {
    hide Overlaps, Reached, Selected, Chunk;
    var i := first + n;
    var at := i * chunkSize;
    ReachedValues(chunkSize, first, start, end, n);
    SelectedValue(plain, chunkSize, i, start, end);
    var from, upTo := Reached(chunkSize, first, start, end, n), Reached(chunkSize, first, start, end, n + 1);
    assert plain[start..upTo] == plain[start..from] + plain[from..upTo];
  }

  lemma ReachedValues(chunkSize: nat, first: nat, start: nat, end: nat, n: nat)
    requires start < end && Overlaps(chunkSize, first + n, start, end) && (n == 0 ==> first * chunkSize <= start)
    requires n > 0 ==> Overlaps(chunkSize, first + n - 1, start, end)
    ensures
      var at := (first + n) * chunkSize;
      && Reached(chunkSize, first, start, end, n) == Later(at, start)
      && Reached(chunkSize, first, start, end, n + 1) == Earlier(at + chunkSize, end)
      && start <= Reached(chunkSize, first, start, end, n) <= Reached(chunkSize, first, start, end, n + 1) <= end
  {
    Successor(first + n, chunkSize);
  }

  lemma SelectedValue(plain: bytes, chunkSize: nat, i: nat, start: nat, end: nat)
    requires start < end <= |plain| && (i + 1) * chunkSize <= |plain| && Overlaps(chunkSize, i, start, end)
    ensures
      var at := i * chunkSize;
      && Later(at, start) <= Earlier(at + chunkSize, end) <= |plain|
      && Selected(Chunk(plain, chunkSize, i), chunkSize, i, start, end)
         == plain[Later(at, start)..Earlier(at + chunkSize, end)]
  {
    hide Clip;
    Successor(i, chunkSize);
    var at := i * chunkSize;
    ClipOfSlice(plain, at, chunkSize, start, end);
    assert Chunk(plain, chunkSize, i) == plain[at..at + chunkSize];
  }

  lemma ClipOfSlice(plain: bytes, at: nat, size: nat, start: nat, end: nat)
    requires start < end <= |plain| && at + size <= |plain| && at < end && start < at + size
    ensures Later(at, start) <= Earlier(at + size, end) <= |plain|
    ensures Clip(plain[at..at + size], at, start, end) == plain[Later(at, start)..Earlier(at + size, end)]
  {
    SliceOfSlice(plain, at, size, Later(at, start) - at, Earlier(at + size, end) - at);
  }

  /** A frame of the ranged input is the same bytes as in the whole object. */
  lemma SameFrame(c: Primitives, key: bytes, data: bytes, base: nat, chunkSize: nat, total: nat, first: nat,
      count: nat, j: nat)
    requires j < count && FrameAt(base, chunkSize, first) + count * (chunkSize + TAG_LEN) <= |data|
    ensures
      var from := FrameAt(base, chunkSize, first);
      var ranged := Input(data[from..from + count * (chunkSize + TAG_LEN)], false);
      var whole := ReadFrame(c, key, Input(data, false), base, chunkSize, total, first + j);
      whole.Ok? ==> ReadRangeFrame(c, key, ranged, chunkSize, total, first, j) == whole
  {
    hide DecryptFrame, Nonce;
    var stride := chunkSize + TAG_LEN;
    var from := FrameAt(base, chunkSize, first);
    MulMonotone(j + 1, count, stride);
    Successor(j, stride);
    assert (first + j) * stride == first * stride + j * stride;
    SliceOfSlice(data, from, count * stride, j * stride, j * stride + stride);
  }

  lemma {:induction false} GathersPlain(c: Primitives, key: bytes, data: bytes, base: nat, chunkSize: nat, total: nat,
                                        plain: bytes, first: nat, count: nat, start: nat, end: nat, n: nat)
    requires Decodes(c, key, Input(data, false), base, chunkSize, total, total, plain)
    requires start < end <= |plain| && n <= count && first + count <= total && first * chunkSize <= start
    requires AllOverlap(chunkSize, first, count, start, end)
    requires FrameAt(base, chunkSize, first) + count * (chunkSize + TAG_LEN) <= |data|
    ensures
      var from := FrameAt(base, chunkSize, first);
      var ranged := Input(data[from..from + count * (chunkSize + TAG_LEN)], false);
      && start <= Reached(chunkSize, first, start, end, n) <= end
      && Gathered(c, key, ranged, chunkSize, total, first, start, end, n)
         == Stretch(plain[start..Reached(chunkSize, first, start, end, n)], None)
  {
    hide ReadFrame, ReadRangeFrame, Selected, Reached, Overlaps, Chunk, FrameAt;
    if n == 0 {
      ReachedStart(chunkSize, first, start, end);
    } else {
      GathersPlain(c, key, data, base, chunkSize, total, plain, first, count, start, end, n - 1);
      var i := first + n - 1;
      assert DecodesAt(c, key, Input(data, false), base, chunkSize, total, i, plain);
      assert Overlaps(chunkSize, i, start, end) && (n > 1 ==> Overlaps(chunkSize, i - 1, start, end));
      SelectedExtends(plain, chunkSize, first, start, end, n - 1);
      SameFrame(c, key, data, base, chunkSize, total, first, count, n - 1);
    }
  }

  lemma ReachedStart(chunkSize: nat, first: nat, start: nat, end: nat)
    ensures Reached(chunkSize, first, start, end, 0) == start
  {
  }

  /**
   On every object that whole open accepts, every in-bounds range opens to exactly that part of the plaintext, from one
   contiguous stretch inside the object holding exactly the frames of the chunks that overlap the range.
   */
  lemma RangeAgreesWithOpen(c: Primitives, data: bytes, key: W.PrivateKey, start: nat, len: nat)
    requires Opened(c, Input(data, false), key).outcome.Ok?
    requires start + len <= |Opened(c, Input(data, false), key).released|
    ensures
      var plain := Opened(c, Input(data, false), key).released;
      var h := Opened(c, Input(data, false), key).outcome.value.header;
      var r := RangeOpen(c, data, key, start, len);
      && r.Ok? && r.value.0 == plain[start..start + len]
      && var g := r.value.1;
      && (len == 0 ==> g.storedLen == 0 && g.storedStart == None && g.chunkCount == 0)
      && (len > 0 ==>
          && g.firstChunk.Some? && Covers(h.chunkSize, g.firstChunk.value, g.chunkCount, start, start + len)
          && g.storedStart == Some(FrameAt(PayloadStart(h), h.chunkSize, g.firstChunk.value))
          && g.storedLen == g.chunkCount * (h.chunkSize + TAG_LEN)
          && g.storedStart.value + g.storedLen <= |data|)
  {
    hide Authenticate, RangeGeometry, Opened, Gathered, StoredSize, Covers, Decodes, FrameAt, PayloadStart;
    OpenAccepts(c, Input(data, false), key);
    var ctx := Authenticate(c, Input(data, false), key).value;
    var plain := Opened(c, Input(data, false), key).released;
    StoredFacts(c, data, ctx, plain);
    GeometryFits(ctx, start, len);
    if len == 0 {
      EmptyRange(ctx, start);
    } else {
      GeometryCovers(ctx, start, len);
      RangeFromAccepted(c, data, ctx, plain, start, len);
    }
  }

  lemma EmptyRange(ctx: Context, start: nat)
    requires Sound(ctx) && RangeGeometry(ctx, start, 0).Ok?
    ensures RangeGeometry(ctx, start, 0) == Ok(Covering(start, 0, None, 0, None, 0))
  {
  }

  lemma StoredFacts(c: Primitives, data: bytes, ctx: Context, plain: bytes)
    requires Sound(ctx) && Stored(c, Input(data, false), ctx, plain)
    ensures
      var h, total := ctx.header, Chunks(ctx);
      && |plain| == ctx.meta.plaintextSize
      && Decodes(c, ctx.keys.payloadKey, Input(data, false), PayloadStart(h), h.chunkSize, total, total, plain)
      && StoredSize(h.keyFrameLen, h.metadataFrameLen, h.chunkSize, total) == |data| < U64_LIMIT
      && FrameAt(PayloadStart(h), h.chunkSize, total) <= |data|
  {
    hide Sound, DecodesAt;
    Geometry(ctx);
    TailAccepts(Input(data, false), ctx);
  }

  lemma RangeFromAccepted(c: Primitives, data: bytes, ctx: Context, plain: bytes, start: nat, len: nat)
    requires Sound(ctx) && Stored(c, Input(data, false), ctx, plain) && len > 0 && start + len <= |plain|
    requires RangeGeometry(ctx, start, len).Ok? && RangeGeometry(ctx, start, len).value.storedStart.Some?
    requires var g := RangeGeometry(ctx, start, len).value;
      g.storedStart.value + g.storedLen <= FrameAt(PayloadStart(ctx.header), ctx.header.chunkSize, Chunks(ctx))
    ensures FromSlice(c, ctx, data, start, len) == Ok((plain[start..start + len], RangeGeometry(ctx, start, len).value))
  {
    hide Sound, RangeGeometry, Gathered, StoredSize, Covers, Decodes, Overlaps, FrameAt, PayloadStart, Stored;
    var h, total, end := ctx.header, Chunks(ctx), start + len;
    var g := RangeGeometry(ctx, start, len).value;
    StoredFacts(c, data, ctx, plain);
    GeometryCovers(ctx, start, len);
    var first, count := g.firstChunk.value, g.chunkCount;
    CoversAll(h.chunkSize, first, count, start, end);
    ChunkHolds(start, h.chunkSize);
    GathersPlain(c, ctx.keys.payloadKey, data, PayloadStart(h), h.chunkSize, total, plain, first, count,
                 start, end, count);
  }

  lemma CoversAll(chunkSize: nat, first: nat, count: nat, start: nat, end: nat)
    requires Covers(chunkSize, first, count, start, end) && count > 0
    ensures AllOverlap(chunkSize, first, count, start, end)
    ensures Reached(chunkSize, first, start, end, count) == end
  {
    assert !Overlaps(chunkSize, first + count, start, end) && Overlaps(chunkSize, first + count - 1, start, end);
    Successor(first + count, chunkSize);
  }

  /** A range counted from an inner chunk is the same part of the plaintext, counted from the object's start. */
  lemma InnerRangeAgreesWithOpen(c: Primitives, data: bytes, key: W.PrivateKey, firstInner: nat, start: nat, len: nat)
    requires Opened(c, Input(data, false), key).outcome.Ok?
    requires var opening := Opened(c, Input(data, false), key);
      firstInner * opening.outcome.value.header.chunkSize + start + len <= |opening.released|
    ensures
      var opening := Opened(c, Input(data, false), key);
      var at := firstInner * opening.outcome.value.header.chunkSize + start;
      var r := InnerRangeOpen(c, data, key, firstInner, start, len);
      r.Ok? && r.value.0 == opening.released[at..at + len]
  {
    hide Authenticate, Opened, FromSlice, StoredSize, Decodes;
    OpenAccepts(c, Input(data, false), key);
    var ctx := Authenticate(c, Input(data, false), key).value;
    StoredFacts(c, data, ctx, Opened(c, Input(data, false), key).released);
    PlaintextFits(ctx);
    RangeAgreesWithOpen(c, data, key, firstInner * ctx.header.chunkSize + start, len);
  }

  /** A range that ends past the plaintext is refused, and a released one is reported as it was asked for. */
  lemma RangeRefusedIff(c: Primitives, data: bytes, key: W.PrivateKey, start: nat, len: nat)
    requires Opened(c, Input(data, false), key).outcome.Ok?
    ensures
      var plain, r := Opened(c, Input(data, false), key).released, RangeOpen(c, data, key, start, len);
      && (r.Ok? <==> start + len <= |plain|)
      && (if r.Ok? then r.value.1.start == start && r.value.1.len == len else r.error == InvalidInput)
  {
    hide Authenticate, Opened, StoredSize, Decodes, FromReader, FrameAt, PayloadStart, CipherOffset;
    OpenAccepts(c, Input(data, false), key);
    var ctx := Authenticate(c, Input(data, false), key).value;
    StoredFacts(c, data, ctx, Opened(c, Input(data, false), key).released);
    if start + len <= |Opened(c, Input(data, false), key).released| {
      RangeAgreesWithOpen(c, data, key, start, len);
    }
  }

  // ----- locality

  /** Both inputs hold the same header, key frame and metadata frame. */
  ghost predicate SameFront(a: bytes, b: bytes) {
    && HEADER_LEN <= |a| && HEADER_LEN <= |b| && a[..HEADER_LEN] == b[..HEADER_LEN]
    && var h := H.Parse(a[..HEADER_LEN]);
       h.Ok? ==> (
         && PayloadStart(h.value) <= |a| && PayloadStart(h.value) <= |b|
         && a[..PayloadStart(h.value)] == b[..PayloadStart(h.value)])
  }

  lemma AuthenticateLocal(c: Primitives, a: bytes, b: bytes, key: W.PrivateKey)
    requires SameFront(a, b)
    ensures Authenticate(c, Input(a, false), key) == Authenticate(c, Input(b, false), key)
  {
    hide H.Parse, H.Valid, K.Parse, K.AllTyped, M.FromCbor, W.UnwrapDek, H.Wire, SaltFrom, M.Validate;
    var x, y := Input(a, false), Input(b, false);
    assert a[0..HEADER_LEN] == a[..HEADER_LEN] && b[0..HEADER_LEN] == b[..HEADER_LEN];
    assert ReadHeader(x) == ReadHeader(y);
    if ReadHeader(x).Ok? {
      var h := ReadHeader(x).value;
      var keyEnd, all := HEADER_LEN + h.keyFrameLen, PayloadStart(h);
      SameSlice(a, b, all, HEADER_LEN, keyEnd);
      SameSlice(a, b, all, keyEnd, all);
      assert ReadSlots(x, h) == ReadSlots(y, h);
    }
  }

  /** The stored stretch a range reads, where the front authenticates and the range is in bounds. */
  ghost function Fetched(c: Primitives, data: bytes, key: W.PrivateKey, start: nat, len: nat): Option<(nat, nat)> {
    var ctx := Authenticate(c, Input(data, false), key);
    if ctx.Err? then None
    else
      var g := RangeGeometry(ctx.value, start, len);
      if g.Err? || g.value.storedStart.None? then None
      else Some((g.value.storedStart.value, g.value.storedStart.value + g.value.storedLen))
  }

  /** Range open depends on nothing but the front and the frames it fetches. */
  lemma RangeIsLocal(c: Primitives, a: bytes, b: bytes, key: W.PrivateKey, start: nat, len: nat)
    requires SameFront(a, b)
    requires var f := Fetched(c, a, key, start, len);
      f.Some? ==> f.value.1 <= |a| && f.value.1 <= |b| && a[f.value.0..f.value.1] == b[f.value.0..f.value.1]
    ensures RangeOpen(c, a, key, start, len) == RangeOpen(c, b, key, start, len)
  {
    hide Authenticate, RangeGeometry, FromReader, SameFront;
    AuthenticateLocal(c, a, b, key);
  }
}
