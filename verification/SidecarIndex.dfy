/** The sidecar index: entries packed greedily into checksummed blocks, after the header of the first. */
module SidecarIndex {
  import opened Bits
  import opened Outcomes
  import opened ByteStrings
  import opened Arithmetic
  import C = Crc64

  /** A checksum that fits its eight bytes. */
  ghost predicate Fits(crc: bytes -> nat) {
    forall b :: crc(b) < U64_LIMIT
  }

  const HEADER_END: nat := 0xB8
  const TRAILER: nat := 8
  const MIN_BLOCK: nat := 0xC0

  // ----- where entries go

  /** A position in the index: block, and offset inside it. */
  datatype Cursor = Cursor(block: nat, offset: nat)

  /** Sizes that fit any legal block. */
  ghost predicate Sized(sizes: seq<nat>) {
    forall i :: 0 <= i < |sizes| ==> 0 < sizes[i] <= HEADER_END
  }

  function Sizes(parity: nat, data: nat): seq<nat> {
    seq(parity, _ => 16) + seq(data, _ => 8)
  }

  lemma SizesAreSized(parity: nat, data: nat)
    ensures Sized(Sizes(parity, data))
  {
  }

  /** Where an entry of this size starts when the cursor stands at `c`. */
  function Place(c: Cursor, size: nat, limit: nat): Cursor {
    if c.offset + size > limit then Cursor(c.block + 1, 0) else c
  }

  /** The cursor after the first `n` entries. */
  function After(blockSize: nat, sizes: seq<nat>, n: nat): Cursor
    requires blockSize >= TRAILER && n <= |sizes|
    decreases n, 0
  {
    if n == 0 then Cursor(0, HEADER_END)
    else
      var at := Start(blockSize, sizes, n - 1);
      Cursor(at.block, at.offset + sizes[n - 1])
  }

  /** Where entry `i` starts. */
  function Start(blockSize: nat, sizes: seq<nat>, i: nat): Cursor
    requires blockSize >= TRAILER && i < |sizes|
    decreases i, 1
  {
    Place(After(blockSize, sizes, i), sizes[i], blockSize - TRAILER)
  }

  /** Index blocks the layout needs. */
  function Blocks(blockSize: nat, sizes: seq<nat>): nat
    requires blockSize >= TRAILER
  {
    After(blockSize, sizes, |sizes|).block + 1
  }

  /** Index bytes that share the first block with the header. */
  function Inline(blockSize: nat, sizes: seq<nat>, n: nat): nat
    requires blockSize >= TRAILER && n <= |sizes|
  {
    if n == 0 then 0
    else Inline(blockSize, sizes, n - 1) + (if Start(blockSize, sizes, n - 1).block == 0 then sizes[n - 1] else 0)
  }

  /** An absolute position within a run of blocks. */
  function Absolute(c: Cursor, blockSize: nat): nat {
    c.block * blockSize + c.offset
  }

  // ----- extents

  lemma {:induction false} AfterStaysInside(blockSize: nat, sizes: seq<nat>, n: nat)
    requires blockSize >= MIN_BLOCK && n <= |sizes| && Sized(sizes)
    ensures After(blockSize, sizes, n).offset <= blockSize - TRAILER
    ensures After(blockSize, sizes, n).block == 0 ==> After(blockSize, sizes, n).offset >= HEADER_END
  {
    if n > 0 {
      AfterStaysInside(blockSize, sizes, n - 1);
    }
  }

  lemma {:induction false} AfterAdvances(blockSize: nat, sizes: seq<nat>, m: nat, n: nat)
    requires blockSize >= MIN_BLOCK && m <= n <= |sizes| && Sized(sizes)
    ensures After(blockSize, sizes, m).block <= After(blockSize, sizes, n).block
    ensures Absolute(After(blockSize, sizes, m), blockSize) <= Absolute(After(blockSize, sizes, n), blockSize)
    decreases n
  {
    if m < n {
      AfterAdvances(blockSize, sizes, m, n - 1);
      AfterStaysInside(blockSize, sizes, n - 1);
      PlaceAdvances(After(blockSize, sizes, n - 1), sizes[n - 1], blockSize - TRAILER, blockSize);
    }
  }

  lemma PlaceAdvances(c: Cursor, size: nat, limit: nat, blockSize: nat)
    requires c.offset <= blockSize
    ensures Absolute(c, blockSize) <= Absolute(Place(c, size, limit), blockSize)
  {
    Successor(c.block, blockSize);
  }

  /** An entry lies inside one index block, clear of the first block's header and of the block's checksum. */
  ghost predicate Inside(blockSize: nat, sizes: seq<nat>, i: nat)
    requires blockSize >= MIN_BLOCK && i < |sizes|
  {
    var at := Start(blockSize, sizes, i);
    && at.block < Blocks(blockSize, sizes)
    && at.offset + sizes[i] <= blockSize - TRAILER
    && (at.block == 0 ==> at.offset >= HEADER_END)
  }

  /** No entry overruns the blocks the layout computes, straddles two, or touches a header or a checksum. */
  lemma EntriesStayInside(blockSize: nat, sizes: seq<nat>, i: nat)
    requires blockSize >= MIN_BLOCK && i < |sizes| && Sized(sizes)
    ensures Inside(blockSize, sizes, i)
  {
    AfterStaysInside(blockSize, sizes, i);
    AfterStaysInside(blockSize, sizes, i + 1);
    AfterAdvances(blockSize, sizes, i + 1, |sizes|);
  }

  /** Entries occupy disjoint extents, in order. */
  lemma EntriesAreDisjoint(blockSize: nat, sizes: seq<nat>, i: nat, j: nat)
    requires blockSize >= MIN_BLOCK && i < j < |sizes| && Sized(sizes)
    ensures Absolute(Start(blockSize, sizes, i), blockSize) + sizes[i]
         <= Absolute(Start(blockSize, sizes, j), blockSize)
  {
    hide After;
    AfterIsEnd(blockSize, sizes, i);
    AfterAdvances(blockSize, sizes, i + 1, j);
    AfterStaysInside(blockSize, sizes, j);
    PlaceAdvances(After(blockSize, sizes, j), sizes[j], blockSize - TRAILER, blockSize);
  }

  lemma AfterIsEnd(blockSize: nat, sizes: seq<nat>, i: nat)
    requires blockSize >= MIN_BLOCK && i < |sizes|
    ensures Absolute(After(blockSize, sizes, i + 1), blockSize)
         == Absolute(Start(blockSize, sizes, i), blockSize) + sizes[i]
  {
  }

  /** `_sidecar_layout`: the number of index blocks and the inline bytes, by one pass over the sizes. */
  method SidecarLayout(blockSize: nat, stripes: nat, parity: nat, data: nat) returns (r: Option<(nat, nat)>)
    requires stripes > 0
    ensures r.Some? <==> blockSize >= 0xC0 && parity % stripes == 0
    ensures r.Some? ==>
      var sizes := Sizes(parity, data);
      r.value == (Blocks(blockSize, sizes), Inline(blockSize, sizes, |sizes|))
  {
    hide Sizes;
    if blockSize < MIN_BLOCK {
      return None;
    }
    var limit := blockSize - TRAILER;
    var sizes := Sizes(parity, data);
    SizesAreSized(parity, data);
    var offset: nat, blocks: nat := HEADER_END, 1;
    var inlineBytes: Option<nat> := None;
    for i := 0 to |sizes|
      invariant blocks >= 1 && After(blockSize, sizes, i) == Cursor(blocks - 1, offset)
      invariant inlineBytes.None? ==> blocks == 1 && Inline(blockSize, sizes, i) == offset - HEADER_END
      invariant inlineBytes.Some? ==> blocks > 1 && Inline(blockSize, sizes, i) == inlineBytes.value
    {
      AfterStaysInside(blockSize, sizes, i);
      if offset + sizes[i] > limit {
        if blocks == 1 && inlineBytes.None? {
          inlineBytes := Some(offset - HEADER_END);
        }
        blocks := blocks + 1;
        offset := 0;
      }
      offset := offset + sizes[i];
    }
    AfterStaysInside(blockSize, sizes, |sizes|);
    if inlineBytes.None? {
      inlineBytes := Some(offset - HEADER_END);
    }
    DivMod(parity, stripes);
    MultipleMod(parity / stripes, stripes);
    if parity != stripes * (parity / stripes) {
      return None;
    }
    return Some((blocks, inlineBytes.value));
  }

  // ----- no order-preserving layout does better

  /** A parity entry takes 16 bytes and a data entry 8. */
  lemma EntrySizes(parity: nat, data: nat, i: nat)
    requires i < parity + data
    ensures |Sizes(parity, data)| == parity + data && Sizes(parity, data)[i] == if i < parity then 16 else 8
  {
  }

  /** The cursor when entry `i` goes to block `blocks[i]`. */
  function PlacedAfter(blocks: seq<nat>, sizes: seq<nat>, n: nat): Cursor
    requires n <= |blocks| && n <= |sizes|
  {
    if n == 0 then Cursor(0, 0xB8)
    else
      var before := PlacedAfter(blocks, sizes, n - 1);
      Cursor(blocks[n - 1], (if blocks[n - 1] == before.block then before.offset else 0) + sizes[n - 1])
  }

  /** Entries go to blocks in order, and none overruns its block. */
  ghost predicate Legal(blocks: seq<nat>, sizes: seq<nat>, limit: nat) {
    |blocks| == |sizes| && forall n :: 0 <= n < |sizes| ==> LegalAt(blocks, sizes, limit, n)
  }

  ghost predicate LegalAt(blocks: seq<nat>, sizes: seq<nat>, limit: nat, n: nat)
    requires n < |blocks| && n < |sizes|
  {
    PlacedAfter(blocks, sizes, n).block <= blocks[n] && PlacedAfter(blocks, sizes, n + 1).offset <= limit
  }

  lemma {:induction false} GreedyIsAhead(blockSize: nat, sizes: seq<nat>, blocks: seq<nat>, n: nat)
    requires blockSize >= MIN_BLOCK && Sized(sizes) && Legal(blocks, sizes, blockSize - TRAILER) && n <= |sizes|
    ensures
      var g, p := After(blockSize, sizes, n), PlacedAfter(blocks, sizes, n);
      g.block < p.block || (g.block == p.block && g.offset <= p.offset)
    decreases n
  {
    if n > 0 {
      GreedyIsAhead(blockSize, sizes, blocks, n - 1);
      assert LegalAt(blocks, sizes, blockSize - TRAILER, n - 1);
    }
  }

  /** The layout needs as few index blocks as any that keeps the order of the entries. */
  lemma BlocksAreFewest(blockSize: nat, sizes: seq<nat>, blocks: seq<nat>)
    requires blockSize >= MIN_BLOCK && Sized(sizes) && Legal(blocks, sizes, blockSize - TRAILER)
    ensures Blocks(blockSize, sizes) <= PlacedAfter(blocks, sizes, |sizes|).block + 1
  {
    hide After, PlacedAfter, Legal;
    GreedyIsAhead(blockSize, sizes, blocks, |sizes|);
  }

  /** The inline bytes end where the first block is left, or where the entries end. */
  lemma {:induction false} InlineEnds(blockSize: nat, sizes: seq<nat>, n: nat) returns (i: nat)
    requires blockSize >= MIN_BLOCK && n <= |sizes| && Sized(sizes)
    ensures i <= n && After(blockSize, sizes, i).block == 0
    ensures i < n ==> Start(blockSize, sizes, i).block > 0
    ensures Inline(blockSize, sizes, n) + 0xB8 == After(blockSize, sizes, i).offset
    decreases n
  {
    if n == 0 {
      i := 0;
    } else {
      i := InlineEnds(blockSize, sizes, n - 1);
      if i < n - 1 {
        AfterAdvances(blockSize, sizes, i + 1, n - 1);
      } else if Start(blockSize, sizes, n - 1).block == 0 {
        i := n;
      }
    }
  }

  // ----- extraction

  /** A whole block stands at `start`, and its last eight bytes are the checksum of the rest. */
  predicate ChecksOut(crc: bytes -> nat, data: bytes, start: nat, blockSize: nat)
    requires blockSize >= TRAILER
  {
    && start + blockSize <= |data|
    && Little(data[start + blockSize - TRAILER..start + blockSize]) == crc(data[start..start + blockSize - TRAILER])
  }

  function BlockStart(k: nat, blockSize: nat): nat {
    k * blockSize
  }

  /** Block `k` of the data is intact. */
  predicate BlockOk(crc: bytes -> nat, data: bytes, k: nat, blockSize: nat)
    requires blockSize >= TRAILER
  {
    ChecksOut(crc, data, BlockStart(k, blockSize), blockSize)
  }

  /** Under CRC-64/XZ a block is intact exactly when the checksum of all of it is the residue. */
  lemma IntactIff(data: bytes, k: nat, blockSize: nat)
    requires blockSize >= TRAILER
    ensures BlockOk(C.Crc, data, k, blockSize) <==>
      k * blockSize + blockSize <= |data|
      && C.Crc(data[k * blockSize..k * blockSize + blockSize]) == C.Crc(seq(8, _ => 0))
  {
    hide C.Crc, Little, ToLittle, Pow256;
    var start := BlockStart(k, blockSize);
    if start + blockSize <= |data| {
      var split := start + blockSize - TRAILER;
      var message, trailer := data[start..split], data[split..start + blockSize];
      assert data[start..start + blockSize] == message + trailer;
      C.ResidueIff(message, trailer);
      C.CrcFits(message);
      Pow256Values();
      DecodeLittle(C.Crc(message), 8);
      EncodeLittle(trailer);
    }
  }

  predicate BlocksOk(crc: bytes -> nat, data: bytes, copyStart: nat, blockSize: nat, count: nat)
    requires blockSize >= TRAILER
  {
    forall k :: copyStart <= k < copyStart + count ==> BlockOk(crc, data, k, blockSize)
  }

  /** A slice as Python takes it: no further than the data go. */
  function Clipped(data: bytes, start: nat, size: nat): bytes {
    if start + size <= |data| then data[start..start + size] else if start <= |data| then data[start..] else []
  }

  /** The first `n` entries, where the index has `blocks` blocks from block `copyStart` of the data. */
  function ReadEntries(data: bytes, copyStart: nat, blockSize: nat, blocks: nat, sizes: seq<nat>, n: nat)
    : Option<seq<bytes>>
    requires blockSize >= TRAILER && n <= |sizes|
  {
    if n == 0 then Some([])
    else
      var before := ReadEntries(data, copyStart, blockSize, blocks, sizes, n - 1);
      var at := Start(blockSize, sizes, n - 1);
      var absolute := Absolute(Cursor(copyStart + at.block, at.offset), blockSize);
      var entry := Clipped(data, absolute, sizes[n - 1]);
      if before.None? || at.block >= blocks || |entry| != sizes[n - 1] then None else Some(before.value + [entry])
  }

  function Extract(crc: bytes -> nat, data: bytes, copyStart: nat, blockSize: nat, blocks: nat, sizes: seq<nat>)
    : Option<seq<bytes>>
    requires blockSize >= TRAILER
  {
    if !BlocksOk(crc, data, copyStart, blockSize, blocks) then None
    else ReadEntries(data, copyStart, blockSize, blocks, sizes, |sizes|)
  }

  /** With the number of blocks the layout computes, extraction fails on nothing but a missing or damaged block. */
  lemma ExtractsWhenIntact(crc: bytes -> nat, data: bytes, copyStart: nat, blockSize: nat, sizes: seq<nat>)
    requires blockSize >= MIN_BLOCK && Sized(sizes)
    ensures Extract(crc, data, copyStart, blockSize, Blocks(blockSize, sizes), sizes).Some?
       <==> BlocksOk(crc, data, copyStart, blockSize, Blocks(blockSize, sizes))
  {
    hide BlockOk, Blocks;
    if BlocksOk(crc, data, copyStart, blockSize, Blocks(blockSize, sizes)) {
      ReadsWhenIntact(crc, data, copyStart, blockSize, sizes, |sizes|);
    }
  }

  lemma {:induction false} ReadsWhenIntact(crc: bytes -> nat, data: bytes, copyStart: nat, blockSize: nat,
      sizes: seq<nat>, n: nat)
    requires blockSize >= MIN_BLOCK && Sized(sizes) && n <= |sizes|
    requires BlocksOk(crc, data, copyStart, blockSize, Blocks(blockSize, sizes))
    ensures ReadEntries(data, copyStart, blockSize, Blocks(blockSize, sizes), sizes, n).Some?
  {
    hide Blocks, After;
    if n > 0 {
      ReadsWhenIntact(crc, data, copyStart, blockSize, sizes, n - 1);
      EntriesStayInside(blockSize, sizes, n - 1);
      var b := Start(blockSize, sizes, n - 1).block;
      assert BlockOk(crc, data, copyStart + b, blockSize);
      BlockFits(crc, data, copyStart + b, blockSize);
    }
  }

  lemma BlockFits(crc: bytes -> nat, data: bytes, k: nat, blockSize: nat)
    requires blockSize >= TRAILER && BlockOk(crc, data, k, blockSize)
    ensures k * blockSize + blockSize <= |data|
  {
  }

  /** `_extract_index_stream`: checks every block, then walks the entries with a moving block and offset. */
  method ExtractIndexStream(crc: bytes -> nat, data: bytes, copyStart: nat, blockSize: nat, blocks: nat,
      sizes: seq<nat>)
    returns (r: Option<seq<bytes>>)
    requires blockSize >= TRAILER
    ensures r == Extract(crc, data, copyStart, blockSize, blocks, sizes)
  {
    hide BlockOk, Absolute, After, ReadEntries, Clipped;
    for relative := 0 to blocks
      invariant forall k :: copyStart <= k < copyStart + relative ==> BlockOk(crc, data, k, blockSize)
    {
      if !BlockOk(crc, data, copyStart + relative, blockSize) {
        return None;
      }
    }
    var entries := [];
    var relative: nat, offset: nat := 0, HEADER_END;
    var limit := blockSize - TRAILER;
    ReadNone(data, copyStart, blockSize, blocks, sizes);
    for i := 0 to |sizes|
      invariant After(blockSize, sizes, i) == Cursor(relative, offset)
      invariant ReadEntries(data, copyStart, blockSize, blocks, sizes, i) == Some(entries)
    {
      ReadOne(data, copyStart, blockSize, blocks, sizes, i);
      if offset + sizes[i] > limit {
        relative := relative + 1;
        offset := 0;
      }
      var absolute := Absolute(Cursor(copyStart + relative, offset), blockSize);
      var entry := Clipped(data, absolute, sizes[i]);
      if relative >= blocks || |entry| != sizes[i] {
        ReadStops(data, copyStart, blockSize, blocks, sizes, i + 1, |sizes|);
        return None;
      }
      entries := entries + [entry];
      offset := offset + sizes[i];
    }
    return Some(entries);
  }

  lemma ReadNone(data: bytes, copyStart: nat, blockSize: nat, blocks: nat, sizes: seq<nat>)
    requires blockSize >= TRAILER
    ensures After(blockSize, sizes, 0) == Cursor(0, HEADER_END)
    ensures ReadEntries(data, copyStart, blockSize, blocks, sizes, 0) == Some([])
  {
  }

  /** One turn of the walk. */
  lemma ReadOne(data: bytes, copyStart: nat, blockSize: nat, blocks: nat, sizes: seq<nat>, i: nat)
    requires blockSize >= TRAILER && i < |sizes|
    ensures
      var at := Place(After(blockSize, sizes, i), sizes[i], blockSize - TRAILER);
      var entry := Clipped(data, Absolute(Cursor(copyStart + at.block, at.offset), blockSize), sizes[i]);
      var before := ReadEntries(data, copyStart, blockSize, blocks, sizes, i);
      && After(blockSize, sizes, i + 1) == Cursor(at.block, at.offset + sizes[i])
      && ReadEntries(data, copyStart, blockSize, blocks, sizes, i + 1)
         == if before.None? || at.block >= blocks || |entry| != sizes[i] then None else Some(before.value + [entry])
  {
    hide Clipped, Absolute;
  }

  lemma {:induction false} ReadStops(data: bytes, copyStart: nat, blockSize: nat, blocks: nat, sizes: seq<nat>,
      n: nat, m: nat)
    requires blockSize >= TRAILER && n <= m <= |sizes|
    requires ReadEntries(data, copyStart, blockSize, blocks, sizes, n).None?
    ensures ReadEntries(data, copyStart, blockSize, blocks, sizes, m).None?
    decreases m
  {
    hide Start;
    if n < m {
      ReadStops(data, copyStart, blockSize, blocks, sizes, n, m - 1);
    }
  }

  // ----- packing

  function SizesOf(entries: seq<bytes>): (sizes: seq<nat>)
    ensures |sizes| == |entries| && forall i :: 0 <= i < |entries| ==> sizes[i] == |entries[i]|
  {
    seq(|entries|, i requires 0 <= i < |entries| => |entries[i]|)
  }

  /** Block contents after `n` entries: each goes to the last block if it fits there, otherwise to a new one. */
  function Contents(header: bytes, entries: seq<bytes>, limit: nat, n: nat): (blocks: seq<bytes>)
    requires n <= |entries|
    ensures |blocks| > 0
  {
    if n == 0 then [header]
    else
      var before := Contents(header, entries, limit, n - 1);
      var k := |before| - 1;
      if |before[k]| + |entries[n - 1]| > limit then before + [entries[n - 1]]
      else before[..k] + [before[k] + entries[n - 1]]
  }

  /** A block: its contents, zero padding, and the checksum of both. */
  function SealBlock(crc: bytes -> nat, content: bytes, blockSize: nat): (block: bytes)
    requires blockSize >= MIN_BLOCK && |content| <= blockSize - TRAILER
    ensures |block| == blockSize
  {
    var padded := content + Zeros(blockSize - TRAILER - |content|);
    padded + ToLittle(crc(padded), TRAILER)
  }

  ghost predicate AllFit(contents: seq<bytes>, limit: nat) {
    forall b :: 0 <= b < |contents| ==> |contents[b]| <= limit
  }

  function Join(crc: bytes -> nat, contents: seq<bytes>, blockSize: nat): (r: bytes)
    requires blockSize >= MIN_BLOCK && AllFit(contents, blockSize - TRAILER)
    ensures |r| == |contents| * blockSize
  {
    if |contents| == 0 then []
    else
      var n := |contents| - 1;
      assert forall b :: 0 <= b < n ==> contents[..n][b] == contents[b];
      Successor(n, blockSize);
      Join(crc, contents[..n], blockSize) + SealBlock(crc, contents[n], blockSize)
  }

  /** Packing follows the layout: as many blocks, and as full. */
  lemma {:induction false} ContentsFollowLayout(header: bytes, entries: seq<bytes>, blockSize: nat, n: nat)
    requires blockSize >= MIN_BLOCK && n <= |entries| && |header| == HEADER_END && Sized(SizesOf(entries))
    ensures
      var blocks, at := Contents(header, entries, blockSize - TRAILER, n), After(blockSize, SizesOf(entries), n);
      |blocks| == at.block + 1 && |blocks[at.block]| == at.offset && AllFit(blocks, blockSize - TRAILER)
  {
    hide Contents, Sized;
    if n == 0 {
      NoEntries(header, entries, blockSize - TRAILER);
    } else {
      ContentsFollowLayout(header, entries, blockSize, n - 1);
      ContentsStep(header, entries, blockSize - TRAILER, n);
      SizeFits(entries, n - 1);
    }
  }

  lemma NoEntries(header: bytes, entries: seq<bytes>, limit: nat)
    ensures Contents(header, entries, limit, 0) == [header]
  {
  }

  lemma SizeFits(entries: seq<bytes>, i: nat)
    requires i < |entries| && Sized(SizesOf(entries))
    ensures SizesOf(entries)[i] == |entries[i]| <= HEADER_END
  {
  }

  /** Each entry stands in the contents where the layout starts it. */
  lemma {:induction false} ContentsHold(header: bytes, entries: seq<bytes>, blockSize: nat, n: nat, i: nat)
    requires blockSize >= MIN_BLOCK && i < n <= |entries| && |header| == HEADER_END && Sized(SizesOf(entries))
    ensures
      var blocks, at := Contents(header, entries, blockSize - TRAILER, n), Start(blockSize, SizesOf(entries), i);
      at.block < |blocks| && At(blocks[at.block], at.offset, entries[i])
    decreases n
  {
    hide After, Place, Sized, At, Contents, Start;
    var sizes, limit := SizesOf(entries), blockSize - TRAILER;
    var before, e := Contents(header, entries, limit, n - 1), entries[n - 1];
    ContentsFollowLayout(header, entries, blockSize, n - 1);
    ContentsStep(header, entries, limit, n);
    if i < n - 1 {
      ContentsHold(header, entries, blockSize, n - 1, i);
      var at := Start(blockSize, sizes, i);
      AtPrefix(before[at.block], e, at.offset, entries[i]);
    } else {
      PlaceIs(blockSize, sizes, i);
      AtItself(e);
      AtSuffix(before[|before| - 1], e, 0, e);
    }
  }

  lemma ContentsStep(header: bytes, entries: seq<bytes>, limit: nat, n: nat)
    requires 0 < n <= |entries|
    ensures
      var before, after := Contents(header, entries, limit, n - 1), Contents(header, entries, limit, n);
      var k, e := |before| - 1, entries[n - 1];
      if |before[k]| + |e| > limit then after == before + [e]
      else |after| == |before| && after[k] == before[k] + e && forall b :: 0 <= b < k ==> after[b] == before[b]
  {
  }

  lemma PlaceIs(blockSize: nat, sizes: seq<nat>, i: nat)
    requires blockSize >= MIN_BLOCK && i < |sizes|
    ensures
      var c := After(blockSize, sizes, i);
      Start(blockSize, sizes, i) == if c.offset + sizes[i] > blockSize - TRAILER then Cursor(c.block + 1, 0) else c
  {
  }

  // ----- packing, then extracting

  lemma {:induction false} JoinAt(crc: bytes -> nat, contents: seq<bytes>, blockSize: nat, b: nat)
    requires blockSize >= MIN_BLOCK && AllFit(contents, blockSize - TRAILER) && b < |contents|
    ensures At(Join(crc, contents, blockSize), b * blockSize, SealBlock(crc, contents[b], blockSize))
    decreases |contents|
  {
    hide SealBlock;
    var n := |contents| - 1;
    var shorter := contents[..n];
    assert forall k :: 0 <= k < n ==> shorter[k] == contents[k];
    var last := SealBlock(crc, contents[n], blockSize);
    if b < n {
      JoinAt(crc, shorter, blockSize, b);
      AtPrefix(Join(crc, shorter, blockSize), last, b * blockSize, SealBlock(crc, contents[b], blockSize));
    } else {
      AtItself(last);
      AtSuffix(Join(crc, shorter, blockSize), last, 0, last);
    }
  }

  lemma SealedBlockIsOk(crc: bytes -> nat, data: bytes, start: nat, content: bytes, blockSize: nat)
    requires blockSize >= MIN_BLOCK && |content| <= blockSize - TRAILER
    requires At(data, start, SealBlock(crc, content, blockSize)) && Fits(crc)
    ensures ChecksOut(crc, data, start, blockSize) && At(data, start, content)
  {
    hide Little, ToLittle, Fits;
    var limit := blockSize - TRAILER;
    var padded := content + Zeros(limit - |content|);
    var sum := crc(padded);
    CrcBound(crc, padded);
    Pow256Values();
    DecodeLittle(sum, TRAILER);
    AtConcat(data, start, padded, ToLittle(sum, TRAILER));
    AtConcat(data, start, content, Zeros(limit - |content|));
    AtFits(data, start, padded);
    AtFits(data, start + limit, ToLittle(sum, TRAILER));
  }

  lemma CrcBound(crc: bytes -> nat, b: bytes)
    requires Fits(crc)
    ensures crc(b) < U64_LIMIT
  {
  }

  /** An index packed at block `copyStart` of anything is extracted from there entry for entry. */
  lemma PackThenExtract(crc: bytes -> nat, header: bytes, entries: seq<bytes>, blockSize: nat, copyStart: nat,
      before: bytes, after: bytes)
    requires blockSize >= MIN_BLOCK && |header| == HEADER_END && Sized(SizesOf(entries))
    requires |before| == copyStart * blockSize && Fits(crc)
    ensures
      var sizes := SizesOf(entries);
      var contents := Contents(header, entries, blockSize - TRAILER, |entries|);
      && AllFit(contents, blockSize - TRAILER) && |contents| == Blocks(blockSize, sizes)
      && var data := before + Join(crc, contents, blockSize) + after;
         Extract(crc, data, copyStart, blockSize, Blocks(blockSize, sizes), sizes) == Some(entries)
  {
    hide BlockOk, Contents, Join, SealBlock, Sized, Start;
    var sizes := SizesOf(entries);
    var contents := Contents(header, entries, blockSize - TRAILER, |entries|);
    ContentsFollowLayout(header, entries, blockSize, |entries|);
    var data := before + Join(crc, contents, blockSize) + after;
    forall k | copyStart <= k < copyStart + |contents|
      ensures BlockOk(crc, data, k, blockSize)
    {
      PackedBlock(crc, contents, blockSize, copyStart, before, after, k - copyStart);
    }
    ReadsPacked(crc, header, entries, blockSize, copyStart, before, after, |entries|);
    assert entries[..|entries|] == entries;
  }

  lemma PackedBlock(crc: bytes -> nat, contents: seq<bytes>, blockSize: nat, copyStart: nat, before: bytes,
      after: bytes, b: nat)
    requires blockSize >= MIN_BLOCK && AllFit(contents, blockSize - TRAILER) && b < |contents|
    requires |before| == copyStart * blockSize && Fits(crc)
    ensures
      var data := before + Join(crc, contents, blockSize) + after;
      BlockOk(crc, data, copyStart + b, blockSize) && At(data, BlockStart(copyStart + b, blockSize), contents[b])
  {
    hide ChecksOut, SealBlock, Join;
    var joined := Join(crc, contents, blockSize);
    var block := SealBlock(crc, contents[b], blockSize);
    JoinAt(crc, contents, blockSize, b);
    assert (copyStart + b) * blockSize == copyStart * blockSize + b * blockSize;
    AtSuffix(before, joined, b * blockSize, block);
    AtPrefix(before + joined, after, |before| + b * blockSize, block);
    SealedBlockIsOk(crc, before + joined + after, (copyStart + b) * blockSize, contents[b], blockSize);
  }

  lemma {:induction false} ReadsPacked(crc: bytes -> nat, header: bytes, entries: seq<bytes>, blockSize: nat,
      copyStart: nat, before: bytes, after: bytes, n: nat)
    requires blockSize >= MIN_BLOCK && |header| == HEADER_END && Sized(SizesOf(entries))
    requires |before| == copyStart * blockSize && Fits(crc)
    requires n <= |entries| && AllFit(Contents(header, entries, blockSize - TRAILER, |entries|), blockSize - TRAILER)
    ensures
      var data := before + Join(crc, Contents(header, entries, blockSize - TRAILER, |entries|), blockSize) + after;
      ReadEntries(data, copyStart, blockSize, Blocks(blockSize, SizesOf(entries)), SizesOf(entries), n)
      == Some(entries[..n])
    decreases n
  {
    hide BlockOk, Contents, Join, Start, Sized, Blocks;
    if n > 0 {
      var i := n - 1;
      var sizes := SizesOf(entries);
      var contents := Contents(header, entries, blockSize - TRAILER, |entries|);
      var data := before + Join(crc, contents, blockSize) + after;
      ReadsPacked(crc, header, entries, blockSize, copyStart, before, after, i);
      ContentsHold(header, entries, blockSize, |entries|, i);
      EntriesStayInside(blockSize, sizes, i);
      var at := Start(blockSize, sizes, i);
      PackedBlock(crc, contents, blockSize, copyStart, before, after, at.block);
      AtInside(data, (copyStart + at.block) * blockSize, contents[at.block], at.offset, entries[i]);
      assert entries[..n] == entries[..i] + [entries[i]];
    }
  }

  lemma AtInside(data: bytes, start: nat, block: bytes, offset: nat, part: bytes)
    requires At(data, start, block) && At(block, offset, part)
    ensures start + offset + |part| <= |data| && data[start + offset..start + offset + |part|] == part
  {
    SliceOfSlice(data, start, |block|, offset, offset + |part|);
  }

  /** CRC-64/XZ is such a checksum. */
  lemma CrcIsChecksum()
    ensures Fits(C.Crc)
  {
    hide C.Crc;
    forall b: bytes
      ensures C.Crc(b) < U64_LIMIT
    {
      C.CrcFits(b);
    }
  }
}
