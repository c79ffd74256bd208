/** Ranged open as it runs: one pass over the fetched frames, each clipped to the request and written out. */
module RangeReader {
  import opened Bits
  import opened Outcomes
  import opened ByteStrings
  import opened Envelope
  import opened Stream
  import opened InputOutput
  import opened Arithmetic
  import opened Open
  import opened Range
  import Opener
  import W = Wrap

  method OpenFromReader(c: Primitives, ctx: Context, source: Source, storedStart: nat, out: Sink, start: nat, len: nat)
    returns (r: Outcome<Covering>)
    requires Sound(ctx) && source.Valid() && source.pos == 0 && !out.failed
    modifies source, out
    ensures var s := FromReader(c, ctx, source.input, storedStart, start, len);
      if out.failed then r == Err(Io) && old(out.written) <= out.written <= old(out.written) + s.released
      else r == s.outcome && out.written == old(out.written) + s.released
    ensures out.capacity.None? ==> !out.failed
  {
    hide Sound, RangeGeometry, Covers, Gathered, Overlaps;
    var geometry := RangeGeometry(ctx, start, len);
    if geometry.Err? {
      return Err(geometry.error);
    }
    if len == 0 {
      return geometry;
    }
    GeometryCovers(ctx, start, len);
    var g := geometry.value;
    if storedStart != g.storedStart.value {
      return Err(InvalidInput);
    }
    CoversAll(ctx.header.chunkSize, g.firstChunk.value, g.chunkCount, start, start + len);
    var ok := Gather(c, source, out, ctx.keys.payloadKey, ctx.header.chunkSize,
                     ctx.meta.plaintextSize / ctx.header.chunkSize, g.firstChunk.value,
                     start, start + len, g.chunkCount);
    if ok.Err? {
      return Err(ok.error);
    }
    return geometry;
  }

  method Gather(c: Primitives, source: Source, out: Sink, key: bytes, chunkSize: nat, total: nat, first: nat,
                start: nat, end: nat, count: nat)
    returns (r: Outcome<()>)
    requires source.Valid() && source.pos == 0 && !out.failed && start <= end
    requires AllOverlap(chunkSize, first, count, start, end)
    modifies source, out
    ensures var s := Gathered(c, key, source.input, chunkSize, total, first, start, end, count);
      if out.failed then r == Err(Io) && old(out.written) <= out.written <= old(out.written) + s.plain
      else
        && out.written == old(out.written) + s.plain
        && r == if s.failure.Some? then Err(s.failure.value) else Ok(())
    ensures out.capacity.None? ==> !out.failed
  {
    hide Gathered, DecryptFrame, Nonce, Overlaps, Clip;
    ghost var input := source.input;
    ghost var seen: bytes := [];
    var offset := 0;
    GatheredStep(c, key, input, chunkSize, total, first, start, end, 0);
    while offset < count
      invariant 0 <= offset <= count && source.Valid() && !out.failed && source.pos == FrameAt(0, chunkSize, offset)
      invariant Gathered(c, key, input, chunkSize, total, first, start, end, offset) == Stretch(seen, None)
      invariant out.written == old(out.written) + seen
    {
      GatheredStep(c, key, input, chunkSize, total, first, start, end, offset + 1);
      if Gathered(c, key, input, chunkSize, total, first, start, end, offset + 1).failure.Some? {
        GatheredStops(c, key, input, chunkSize, total, first, start, end, offset + 1, count);
      }
      GatheredGrows(c, key, input, chunkSize, total, first, start, end, offset + 1, count);
      Successor(offset, chunkSize + TAG_LEN);
      var encrypted := source.ReadExact(chunkSize + TAG_LEN);
      if encrypted.Err? {
        return Err(encrypted.error);
      }
      var index := first + offset;
      var plain := DecryptFrame(c, key, encrypted.value, chunkSize, total, index);
      if plain.Err? {
        return Err(plain.error);
      }
      assert Overlaps(chunkSize, index, start, end);
      ChunkBounds(chunkSize, index, start, end);
      var chunkStart := index * chunkSize;
      var part := Clip(plain.value, chunkStart, start, end);
      seen := seen + part;
      var ok := out.WriteAll(part);
      if ok.Err? {
        return Err(ok.error);
      }
      offset := offset + 1;
    }
    return Ok(());
  }

  lemma ChunkBounds(chunkSize: nat, i: nat, start: nat, end: nat)
    requires Overlaps(chunkSize, i, start, end)
    ensures i * chunkSize < end && start < i * chunkSize + chunkSize
  {
    Successor(i, chunkSize);
  }

  lemma GatheredStep(c: Primitives, key: bytes, ranged: Input, chunkSize: nat, total: nat, first: nat, start: nat,
      end: nat, n: nat)
    requires start <= end && AllOverlap(chunkSize, first, n, start, end)
    ensures AllOverlap(chunkSize, first, 0, start, end) && (n > 0 ==> AllOverlap(chunkSize, first, n - 1, start, end))
    ensures Gathered(c, key, ranged, chunkSize, total, first, start, end, n) ==
      if n == 0 then Stretch([], None)
      else
        var before := Gathered(c, key, ranged, chunkSize, total, first, start, end, n - 1);
        if before.failure.Some? then before
        else
          var chunk := ReadRangeFrame(c, key, ranged, chunkSize, total, first, n - 1);
          if chunk.Err? then Stretch(before.plain, Some(chunk.error))
          else Stretch(before.plain + Selected(chunk.value, chunkSize, first + n - 1, start, end), None)
  {
    hide Overlaps, ReadRangeFrame, Selected;
  }

  lemma {:induction false} GatheredStops(c: Primitives, key: bytes, ranged: Input, chunkSize: nat, total: nat,
      first: nat, start: nat, end: nat, n: nat, m: nat)
    requires start <= end && n <= m && AllOverlap(chunkSize, first, m, start, end)
    requires AllOverlap(chunkSize, first, n, start, end)
    requires Gathered(c, key, ranged, chunkSize, total, first, start, end, n).failure.Some?
    ensures Gathered(c, key, ranged, chunkSize, total, first, start, end, m)
         == Gathered(c, key, ranged, chunkSize, total, first, start, end, n)
  {
    hide ReadRangeFrame, Selected, Overlaps;
    if n < m {
      GatheredStops(c, key, ranged, chunkSize, total, first, start, end, n, m - 1);
    }
  }

  lemma {:induction false} GatheredGrows(c: Primitives, key: bytes, ranged: Input, chunkSize: nat, total: nat,
      first: nat, start: nat, end: nat, n: nat, m: nat)
    requires start <= end && n <= m && AllOverlap(chunkSize, first, m, start, end)
    ensures AllOverlap(chunkSize, first, n, start, end)
    ensures Gathered(c, key, ranged, chunkSize, total, first, start, end, n).plain
         <= Gathered(c, key, ranged, chunkSize, total, first, start, end, m).plain
  {
    hide ReadRangeFrame, Selected, Overlaps;
    if n < m {
      GatheredGrows(c, key, ranged, chunkSize, total, first, start, end, n, m - 1);
    }
  }

  method OpenFromSlice(c: Primitives, ctx: Context, data: bytes, start: nat, len: nat)
    returns (r: Outcome<(bytes, Covering)>)
    requires Sound(ctx)
    ensures r == FromSlice(c, ctx, data, start, len)
  {
    hide Sound, RangeGeometry, FromReader;
    var geometry := RangeGeometry(ctx, start, len);
    if geometry.Err? {
      return Err(geometry.error);
    }
    var g := geometry.value;
    if g.storedStart.None? {
      return Ok(([], g));
    }
    var from := g.storedStart.value;
    if from + g.storedLen >= U64_LIMIT {
      return Err(SizeOverflow);
    }
    if from + g.storedLen > |data| {
      return Err(UnexpectedEof);
    }
    var source := new Source(Input(data[from..from + g.storedLen], false));
    var out := new Sink(None);
    ghost var s := FromReader(c, ctx, source.input, from, start, len);
    var report := OpenFromReader(c, ctx, source, from, out, start, len);
    assert [] + s.released == s.released;
    if report.Err? {
      return Err(report.error);
    }
    return Ok((out.written, g));
  }

  method OpenRange(c: Primitives, data: bytes, key: W.PrivateKey, start: nat, len: nat)
    returns (r: Outcome<(bytes, Covering)>)
    ensures r == RangeOpen(c, data, key, start, len)
  {
    hide Authenticate, FromSlice;
    var source := new Source(Input(data, false));
    var ctx := Opener.AuthenticateFront(c, source, key);
    if ctx.Err? {
      return Err(ctx.error);
    }
    r := OpenFromSlice(c, ctx.value, data, start, len);
  }
}
