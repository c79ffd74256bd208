/** The canonical plaintext object: planned entry by entry and written as planned, payloads on chunk boundaries. */
module CanonicalTar {
  import opened Bits
  import opened ByteStrings
  import opened Outcomes
  import opened Arithmetic
  import opened Pax
  import opened PaxRecords

  // ----- entries

  /** An entry: its payload (empty unless it is a regular file), and its pax records in key order, without the pad. */
  datatype Spec = Spec(data: bytes, regular: bool, records: seq<Record>)

  function Size(s: Spec): nat {
    if s.regular then |s.data| else 0
  }

  /**
   Header blocks: of the global pax body, of the pax body of a file or of the manifest, each of some length, and of the
   entry itself.
   */
  datatype Headers = Headers(global: nat -> bytes, pax: (nat, bool) -> bytes, entry: Spec -> bytes)

  ghost predicate OneRecordEach(t: Headers) {
    && (forall n :: |t.global(n)| == TAR_RECORD) && (forall n, manifest :: |t.pax(n, manifest)| == TAR_RECORD)
    && (forall s :: |t.entry(s)| == TAR_RECORD)
  }

  datatype TarError = OctalOverflow

  /** The largest size an eleven-digit octal field holds. */
  const OCTAL_MAX: nat := 8589934591

  datatype Layout = Layout(
    paxHeaderOffset: nat, dataOffset: nat, size: nat, firstChunk: Option<nat>, chunkCount: nat, padSpaces: nat)

  function ChunkCount(size: nat, chunkSize: nat): nat
    requires chunkSize > 0
  {
    if size == 0 then 0 else (size - 1) / chunkSize + 1
  }

  datatype Plan = Plan(layout: Layout, records: seq<Record>, next: nat)

  function Spaces(n: nat): (s: bytes)
    ensures |s| == n && forall i :: 0 <= i < n ==> s[i] == ' ' as nat
  {
    seq(n, _ => 32)
  }

  /** The records of an entry; those of a nonempty payload include the pad. */
  function PaddedRecords(s: Spec, pad: nat): seq<Record> {
    if Size(s) == 0 then s.records else Insert(Record(PAD_KEY, Spaces(pad)), s.records)
  }

  /** What a plan promises: the offsets follow from the record lengths, and a payload starts a chunk. */
  ghost predicate Planned(chunkSize: nat, offset: nat, s: Spec, p: Plan)
    requires chunkSize > 0
  {
    && p.layout.paxHeaderOffset == offset && p.layout.size == Size(s)
    && p.layout.dataOffset == offset + HEADERS + Ceil(|EncodeRecords(p.records)|, TAR_RECORD)
    && p.next == p.layout.dataOffset + Ceil(Size(s), TAR_RECORD)
    && Whole(p.next)
    && p.layout.chunkCount == ChunkCount(Size(s), chunkSize)
    && p.layout.firstChunk == FirstChunk(Size(s), p.layout.dataOffset, chunkSize)
    && p.records == PaddedRecords(s, p.layout.padSpaces)
    && (Size(s) > 0 ==>
        && p.layout.dataOffset % chunkSize == 0
        && |EncodeRecords(p.records)| < RecordsLen(s.records) + RecordLen(Record(PAD_KEY, [])) + TAR_RECORD + chunkSize)
  }

  /** The plan of an entry at an offset. */
  ghost function PlanFor(chunkSize: nat, offset: nat, s: Spec): Plan
    requires chunkSize > 0
  {
    var size := Size(s);
    var pad := if size == 0 then 0 else SolvedPad(offset, chunkSize, RecordsLen(s.records));
    var records := if size == 0 then s.records else Insert(Record(PAD_KEY, Spaces(pad)), s.records);
    var dataOffset := offset + HEADERS + Ceil(|EncodeRecords(records)|, TAR_RECORD);
    Plan(Layout(offset, dataOffset, size, FirstChunk(size, dataOffset, chunkSize), ChunkCount(size, chunkSize), pad),
         records, dataOffset + Ceil(size, TAR_RECORD))
  }

  method PlanOneFile(chunkSize: nat, offset: nat, s: Spec) returns (p: Plan)
    requires chunkSize > 0 && Whole(chunkSize) && Whole(offset)
    ensures p == PlanFor(chunkSize, offset, s)
    ensures Planned(chunkSize, offset, s, p)
  {
    hide PaxLen, EncodeRecords, RecordsLen, Insert, Target, LongestPad, ChunkCount, Ceil, Whole, RecordLen, FirstChunk;
    var size := Size(s);
    var records, pad := s.records, 0;
    if size > 0 {
      var solved := AlignmentPad(offset, chunkSize, RecordsLen(s.records));
      pad := solved.value;
      records := Insert(Record(PAD_KEY, Spaces(pad)), s.records);
      PaddedPlan(chunkSize, offset, s, pad);
    }
    var body := EncodeRecords(records);
    var dataOffset := offset + TAR_RECORD + Ceil(|body|, TAR_RECORD) + TAR_RECORD;
    var next := dataOffset + size + (TAR_RECORD - size % TAR_RECORD) % TAR_RECORD;
    NextIsWhole(offset, |body|, size);
    var chunks := ChunkCount(size, chunkSize);
    p := Plan(Layout(offset, dataOffset, size, FirstChunk(size, dataOffset, chunkSize), chunks, pad), records, next);
  }

  function FirstChunk(size: nat, dataOffset: nat, chunkSize: nat): Option<nat>
    requires chunkSize > 0
  {
    if size == 0 then None else Some(dataOffset / chunkSize)
  }

  lemma NextIsWhole(offset: nat, bodyLen: nat, size: nat)
    requires Whole(offset)
    ensures size + (TAR_RECORD - size % TAR_RECORD) % TAR_RECORD == Ceil(size, TAR_RECORD)
    ensures Whole(offset + HEADERS + Ceil(bodyLen, TAR_RECORD) + Ceil(size, TAR_RECORD))
  {
    hide Whole;
    CeilIsWhole(bodyLen);
    CeilIsWhole(size);
    WholeSum(offset, HEADERS);
    WholeSum(offset + HEADERS, Ceil(bodyLen, TAR_RECORD));
    WholeSum(offset + HEADERS + Ceil(bodyLen, TAR_RECORD), Ceil(size, TAR_RECORD));
  }

  lemma WholeSum(m: nat, n: nat)
    requires Whole(m) && Whole(n)
    ensures Whole(m + n)
  {
  }

  /** With the solver's pad the payload starts a chunk, and the body is little longer than it must be. */
  lemma PaddedPlan(chunkSize: nat, offset: nat, s: Spec, pad: nat)
    requires chunkSize > 0
    requires Ceil(PaddedLen(RecordsLen(s.records), pad), TAR_RECORD)
          == Target(offset, chunkSize, Ceil(PaddedLen(RecordsLen(s.records), 0), TAR_RECORD))
    ensures
      var len := |EncodeRecords(Insert(Record(PAD_KEY, Spaces(pad)), s.records))|;
      && (offset + HEADERS + Ceil(len, TAR_RECORD)) % chunkSize == 0
      && len < RecordsLen(s.records) + RecordLen(Record(PAD_KEY, [])) + TAR_RECORD + chunkSize
  {
    hide PaxLen, EncodeRecords, RecordsLen, Insert, Target, Ceil;
    var r := Record(PAD_KEY, Spaces(pad));
    InsertAddsLength(r, s.records);
    EncodedLength(Insert(r, s.records));
  }

  function AppendEntry(t: Headers, out: bytes, s: Spec, records: seq<Record>, manifest: bool): Result<bytes, TarError> {
    var body := EncodeRecords(records);
    if |body| > OCTAL_MAX then Err(OctalOverflow)
    else
      Ok(out + t.pax(|body|, manifest) + body + Zeros(Ceil(|body|, TAR_RECORD) - |body|) + t.entry(s)
         + (if s.regular then s.data else []) + Zeros(Ceil(Size(s), TAR_RECORD) - Size(s)))
  }

  /** The entry's payload stands in `out` where its layout says, and the layout counts the chunks it occupies. */
  ghost predicate Placed(out: bytes, chunkSize: nat, s: Spec, l: Layout)
    requires chunkSize > 0
  {
    && l.size == (if s.regular then |s.data| else 0)
    && At(out, l.dataOffset, if s.regular then s.data else [])
    && l.size <= l.chunkCount * chunkSize < l.size + chunkSize
    && (l.size == 0 ==> l.firstChunk == None)
    && (l.size > 0 ==> l.firstChunk.Some? && l.dataOffset == l.firstChunk.value * chunkSize)
  }

  /** Everything of an entry stands where its plan says: both headers, the pax body, the payload and their zeros. */
  ghost predicate Written(t: Headers, out: bytes, chunkSize: nat, s: Spec, p: Plan, manifest: bool)
    requires chunkSize > 0
  {
    var start, data, body := p.layout.paxHeaderOffset, p.layout.dataOffset, EncodeRecords(p.records);
    && Placed(out, chunkSize, s, p.layout)
    && p.records == PaddedRecords(s, p.layout.padSpaces)
    && data == start + 1024 + Ceil(|body|, 512) && p.next == data + Ceil(p.layout.size, 512)
    && At(out, start, t.pax(|body|, manifest)) && At(out, start + 512, body)
    && At(out, start + 512 + |body|, Zeros(data - 512 - (start + 512 + |body|)))
    && At(out, data - 512, t.entry(s))
    && At(out, data + p.layout.size, Zeros(p.next - (data + p.layout.size)))
  }

  /** A planned entry is written at the planned offsets. */
  lemma WrittenAsPlanned(t: Headers, chunkSize: nat, out: bytes, s: Spec, p: Plan, manifest: bool)
    requires chunkSize > 0 && OneRecordEach(t) && Planned(chunkSize, |out|, s, p)
    ensures AppendEntry(t, out, s, p.records, manifest).Ok? <==> |EncodeRecords(p.records)| <= OCTAL_MAX
    ensures AppendEntry(t, out, s, p.records, manifest).Ok? ==>
      var after := AppendEntry(t, out, s, p.records, manifest).value;
      |after| == p.next && out <= after && Written(t, after, chunkSize, s, p, manifest)
  {
    hide EncodeRecords, RecordsLen, Insert, ChunkCount, PaxLen, At, Ceil, FirstChunk;
    var body := EncodeRecords(p.records);
    if |body| <= OCTAL_MAX {
      var data := if s.regular then s.data else [];
      Pieces(out, t.pax(|body|, manifest), body, Zeros(Ceil(|body|, TAR_RECORD) - |body|), t.entry(s), data,
             Zeros(Ceil(Size(s), TAR_RECORD) - Size(s)));
      ChunksCover(Size(s), p.layout.dataOffset, chunkSize);
    }
  }

  lemma ChunksCover(size: nat, dataOffset: nat, chunkSize: nat)
    requires chunkSize > 0 && (size > 0 ==> dataOffset % chunkSize == 0)
    ensures size <= ChunkCount(size, chunkSize) * chunkSize < size + chunkSize
    ensures var first := FirstChunk(size, dataOffset, chunkSize);
      if size == 0 then first == None else first.Some? && dataOffset == first.value * chunkSize
  {
    if size > 0 {
      DivMod(size - 1, chunkSize);
      Successor((size - 1) / chunkSize, chunkSize);
      DivMod(dataOffset, chunkSize);
    }
  }

  /** Where the parts of a concatenation stand. */
  lemma Pieces(out: bytes, pax: bytes, body: bytes, fill: bytes, entry: bytes, data: bytes, tail: bytes)
    ensures
      var all := out + pax + body + fill + entry + data + tail;
      var at := |out| + |pax| + |body| + |fill|;
      && out <= all && |all| == at + |entry| + |data| + |tail|
      && At(all, |out|, pax) && At(all, |out| + |pax|, body) && At(all, at - |fill|, fill)
      && At(all, at, entry) && At(all, at + |entry|, data) && At(all, at + |entry| + |data|, tail)
  {
    hide At;
    var a := out + pax;
    var b := a + body;
    var c := b + fill;
    var d := c + entry;
    var e := d + data;
    AtEnd(out, pax);
    AtEnd(a, body);
    AtEnd(b, fill);
    AtEnd(c, entry);
    AtEnd(d, data);
    AtEnd(e, tail);
    var all := e + tail;
    AtStays(a, all, |out|, pax);
    AtStays(b, all, |a|, body);
    AtStays(c, all, |b|, fill);
    AtStays(d, all, |c|, entry);
    AtStays(e, all, |d|, data);
  }

  lemma AtStays(out: bytes, more: bytes, pos: nat, part: bytes)
    requires At(out, pos, part) && out <= more
    ensures At(more, pos, part)
  {
    AtPrefix(out, more[|out|..], pos, part);
    assert more == out + more[|out|..];
  }

  lemma AtEnd(a: bytes, part: bytes)
    ensures At(a + part, |a|, part)
  {
    AtItself(part);
    AtSuffix(a, part, 0, part);
  }

  lemma WrittenStays(t: Headers, out: bytes, more: bytes, chunkSize: nat, s: Spec, p: Plan, manifest: bool)
    requires chunkSize > 0 && Written(t, out, chunkSize, s, p, manifest) && out <= more
    ensures Written(t, more, chunkSize, s, p, manifest)
  {
    hide At, EncodeRecords, PaddedRecords, Ceil;
    var start, data, body := p.layout.paxHeaderOffset, p.layout.dataOffset, EncodeRecords(p.records);
    AtStays(out, more, data, if s.regular then s.data else []);
    AtStays(out, more, start, t.pax(|body|, manifest));
    AtStays(out, more, start + 512, body);
    AtStays(out, more, start + 512 + |body|, Zeros(data - 512 - (start + 512 + |body|)));
    AtStays(out, more, data - 512, t.entry(s));
    AtStays(out, more, data + p.layout.size, Zeros(p.next - (data + p.layout.size)));
  }

  /** Entries lie one after the other. */
  ghost predicate Separate(layouts: seq<Layout>) {
    forall i, j :: 0 <= i < j < |layouts| ==> layouts[i].dataOffset + layouts[i].size <= layouts[j].paxHeaderOffset
  }

  datatype Built = Built(bytes: bytes, files: seq<Layout>, manifest: Layout, manifestSpec: Spec)

  // ----- all the plans

  function PlansEnd(start: nat, plans: seq<Plan>): nat {
    if |plans| == 0 then start else plans[|plans| - 1].next
  }

  /** The plans of entries one after another. */
  ghost function PlansFor(chunkSize: nat, start: nat, files: seq<Spec>): (plans: seq<Plan>)
    requires chunkSize > 0
    ensures |plans| == |files|
  {
    if |files| == 0 then []
    else
      var before := PlansFor(chunkSize, start, files[..|files| - 1]);
      before + [PlanFor(chunkSize, PlansEnd(start, before), files[|files| - 1])]
  }

  lemma PlansStep(chunkSize: nat, start: nat, files: seq<Spec>, k: nat)
    requires chunkSize > 0 && k < |files|
    ensures
      var before := PlansFor(chunkSize, start, files[..k]);
      PlansFor(chunkSize, start, files[..k + 1]) == before + [PlanFor(chunkSize, PlansEnd(start, before), files[k])]
  {
    hide PlanFor;
    assert files[..k + 1][..k] == files[..k];
  }

  lemma {:induction false} PlansBegin(chunkSize: nat, start: nat, files: seq<Spec>, k: nat)
    requires chunkSize > 0 && k <= |files|
    ensures PlansFor(chunkSize, start, files[..k]) == PlansFor(chunkSize, start, files)[..k]
    decreases |files| - k
  {
    hide PlanFor;
    if k == |files| {
      assert files[..k] == files;
    } else {
      PlansBegin(chunkSize, start, files, k + 1);
      PlansStep(chunkSize, start, files, k);
    }
  }

  function Layouts(plans: seq<Plan>): (r: seq<Layout>)
    ensures |r| == |plans|
  {
    seq(|plans|, i requires 0 <= i < |plans| => plans[i].layout)
  }

  /** The pax body does not fit an octal size field. */
  predicate TooLong(p: Plan) {
    |EncodeRecords(p.records)| > OCTAL_MAX
  }

  /** Where the first entry of an object starts. */
  function FilesStart(globals: seq<Record>): nat {
    TAR_RECORD + Ceil(|EncodeRecords(globals)|, TAR_RECORD)
  }

  ghost function FilePlans(chunkSize: nat, globals: seq<Record>, files: seq<Spec>): (plans: seq<Plan>)
    requires chunkSize > 0
    ensures |plans| == |files|
  {
    PlansFor(chunkSize, FilesStart(globals), files)
  }

  /** The manifest is planned after the files and may depend on their layouts. */
  ghost function ManifestPlan(
    chunkSize: nat, globals: seq<Record>, files: seq<Spec>, manifest: seq<Layout> -> Spec): Plan
    requires chunkSize > 0
  {
    var plans := FilePlans(chunkSize, globals, files);
    PlanFor(chunkSize, PlansEnd(FilesStart(globals), plans), manifest(Layouts(plans)))
  }

  /** An object starts with the global pax header, the global records and zeros up to the first entry. */
  ghost predicate GlobalWritten(t: Headers, globals: seq<Record>, out: bytes) {
    var body := EncodeRecords(globals);
    && At(out, 0, t.global(|body|)) && At(out, 512, body)
    && At(out, 512 + |body|, Zeros(Ceil(|body|, 512) - |body|))
  }

  /** Each entry starts where the one before it ends. */
  ghost predicate Chained(start: nat, plans: seq<Plan>) {
    forall i :: 0 <= i < |plans| ==> Follows(start, plans, i)
  }

  ghost predicate Follows(start: nat, plans: seq<Plan>, i: nat)
    requires i < |plans|
  {
    plans[i].layout.paxHeaderOffset == if i == 0 then start else plans[i - 1].next
  }

  /** After the last entry come two zero records and zeros up to a chunk boundary, and nothing else. */
  ghost predicate Ended(out: bytes, chunkSize: nat, end: nat)
    requires chunkSize > 0
  {
    && |out| % chunkSize == 0 && end + 1024 <= |out| < end + 1024 + chunkSize
    && At(out, end, Zeros(|out| - end))
  }

  /** Every byte of the object is accounted for: the global records, the entries in order, the end. */
  ghost predicate Canonical(
    t: Headers, chunkSize: nat, globals: seq<Record>, files: seq<Spec>, plans: seq<Plan>, last: Plan, b: Built)
    requires chunkSize > 0 && |plans| == |files|
  {
    && GlobalWritten(t, globals, b.bytes)
    && (forall i :: 0 <= i < |files| ==> Written(t, b.bytes, chunkSize, files[i], plans[i], false))
    && Written(t, b.bytes, chunkSize, b.manifestSpec, last, true)
    && Chained(512 + Ceil(|EncodeRecords(globals)|, 512), plans + [last])
    && Ended(b.bytes, chunkSize, last.next)
    && Separate(b.files + [b.manifest])
  }

  /** The entries of `files`, appended one by one; `layouts` grows with the output. */
  method AppendFiles(t: Headers, chunkSize: nat, start: bytes, files: seq<Spec>)
    returns (r: Result<(bytes, seq<Layout>), TarError>)
    requires chunkSize > 0 && Whole(chunkSize) && OneRecordEach(t) && Whole(|start|)
    ensures
      var plans := PlansFor(chunkSize, |start|, files);
      && (r.Err? <==> exists i :: 0 <= i < |files| && TooLong(plans[i]))
      && (r.Ok? ==>
          var (out, layouts) := r.value;
          && layouts == Layouts(plans) && |out| == PlansEnd(|start|, plans)
          && start <= out && Whole(|out|) && Separate(layouts)
          && (forall i :: 0 <= i < |files| ==> Written(t, out, chunkSize, files[i], plans[i], false))
          && (forall i :: 0 <= i < |files| ==> layouts[i].dataOffset + layouts[i].size <= |out|))
  {
    hide AppendEntry, Written, Whole, TooLong, OneRecordEach, PlanFor, Planned, PlansFor, Layouts, EncodeRecords,
      Separate;
    var out, layouts := start, [];
    SeparateNone();
    ghost var all := PlansFor(chunkSize, |start|, files);
    PlansBegin(chunkSize, |start|, files, 0);
    for k := 0 to |files|
      invariant start <= out && Whole(|out|) && |layouts| == k && Separate(layouts)
      invariant |out| == PlansEnd(|start|, all[..k]) && layouts == Layouts(all[..k])
      invariant forall i :: 0 <= i < k ==> !TooLong(all[i])
      invariant forall i :: 0 <= i < k ==> Written(t, out, chunkSize, files[i], all[i], false)
      invariant forall i :: 0 <= i < k ==> layouts[i].dataOffset + layouts[i].size <= |out|
    {
      var plan := PlanOneFile(chunkSize, |out|, files[k]);
      NextPlan(chunkSize, |start|, files, k);
      WrittenAsPlanned(t, chunkSize, out, files[k], plan, false);
      var after := AppendEntry(t, out, files[k], plan.records, false);
      FitsOrNot(plan);
      if after.Err? {
        assert TooLong(all[k]);
        return Err(after.error);
      }
      PlanEnds(chunkSize, |out|, files[k], plan);
      SeparateLast(layouts, plan.layout, |out|);
      forall i | 0 <= i < k
        ensures Written(t, after.value, chunkSize, files[i], all[i], false)
      {
        WrittenStays(t, out, after.value, chunkSize, files[i], all[i], false);
      }
      out, layouts := after.value, layouts + [plan.layout];
    }
    assert all[..|files|] == all;
    return Ok((out, layouts));
  }

  /** Plan `k` starts where the plans before it end. */
  lemma NextPlan(chunkSize: nat, start: nat, files: seq<Spec>, k: nat)
    requires chunkSize > 0 && k < |files|
    ensures
      var all := PlansFor(chunkSize, start, files);
      && all[k] == PlanFor(chunkSize, PlansEnd(start, all[..k]), files[k])
      && PlansEnd(start, all[..k + 1]) == all[k].next
      && Layouts(all[..k + 1]) == Layouts(all[..k]) + [all[k].layout]
  {
    hide PlanFor;
    PlansBegin(chunkSize, start, files, k);
    PlansBegin(chunkSize, start, files, k + 1);
    PlansStep(chunkSize, start, files, k);
  }

  lemma PlanEnds(chunkSize: nat, offset: nat, s: Spec, p: Plan)
    requires chunkSize > 0 && Planned(chunkSize, offset, s, p)
    ensures p.layout.paxHeaderOffset == offset && p.layout.dataOffset + p.layout.size <= p.next && Whole(p.next)
  {
    hide EncodeRecords, RecordsLen, Insert, ChunkCount, PaxLen;
  }

  /**
   `build_plaintext_with_manifest`; the manifest may depend on the layouts of the files. It fails exactly when some
   planned pax body is too long for its size field, and otherwise everything stands where it was planned.
   */
  method BuildPlaintext(t: Headers, chunkSize: nat, globals: seq<Record>, files: seq<Spec>,
      manifest: seq<Layout> -> Spec)
    returns (r: Result<Built, TarError>)
    requires chunkSize > 0 && Whole(chunkSize) && OneRecordEach(t)
    ensures
      var plans := FilePlans(chunkSize, globals, files);
      var last := ManifestPlan(chunkSize, globals, files, manifest);
      && (r.Err? <==>
          || |EncodeRecords(globals)| > OCTAL_MAX
          || (exists i :: 0 <= i < |files| && TooLong(plans[i]))
          || TooLong(last))
      && (r.Ok? ==>
          && Canonical(t, chunkSize, globals, files, plans, last, r.value)
          && r.value.files == Layouts(plans) && r.value.manifest == last.layout
          && r.value.manifestSpec == manifest(r.value.files))
  {
    hide AppendEntry, Written, Whole, TooLong, Separate, OneRecordEach, PlansFor, PlanFor, PlansEnd, Layouts, Planned,
      Canonical, EncodeRecords, GlobalWritten, Ended, Chained;
    var body := EncodeRecords(globals);
    if |body| > OCTAL_MAX {
      return Err(OctalOverflow);
    }
    var start := t.global(|body|) + body + Zeros(Ceil(|body|, TAR_RECORD) - |body|);
    StartIsGlobal(t, globals, start);
    var appended := AppendFiles(t, chunkSize, start, files);
    if appended.Err? {
      return Err(appended.error);
    }
    var (out, layouts) := appended.value;
    var spec := manifest(layouts);
    var plan := PlanOneFile(chunkSize, |out|, spec);
    WrittenAsPlanned(t, chunkSize, out, spec, plan, true);
    var after := AppendEntry(t, out, spec, plan.records, true);
    FitsOrNot(plan);
    if after.Err? {
      return Err(after.error);
    }
    PlanEnds(chunkSize, |out|, spec, plan);
    var ended := after.value + Zeros(2 * TAR_RECORD);
    var total := Ceil(|ended|, chunkSize);
    var built := Built(ended + Zeros(total - |ended|), layouts, plan.layout, spec);
    BuiltEnds(after.value, built.bytes, chunkSize);
    BuiltIsCanonical(t, chunkSize, globals, files, manifest, start, out, after.value, built);
    return Ok(built);
  }

  lemma BuiltEnds(after: bytes, all: bytes, chunkSize: nat)
    requires chunkSize > 0
    requires
      var ended := after + Zeros(2 * TAR_RECORD);
      all == ended + Zeros(Ceil(|ended|, chunkSize) - |ended|)
    ensures after <= all && Ended(all, chunkSize, |after|)
  {
    hide Ceil;
    assert all[|after|..] == Zeros(|all| - |after|);
  }

  /** What was written before the manifest, the end marker and the fill stays written. */
  lemma BuiltIsCanonical(t: Headers, chunkSize: nat, globals: seq<Record>, files: seq<Spec>,
      manifest: seq<Layout> -> Spec, start: bytes, out: bytes, after: bytes, b: Built)
    requires chunkSize > 0 && start <= out <= after <= b.bytes
    requires GlobalWritten(t, globals, start)
    requires
      var plans, last := FilePlans(chunkSize, globals, files), ManifestPlan(chunkSize, globals, files, manifest);
      && b.files == Layouts(plans) && b.manifest == last.layout && b.manifestSpec == manifest(b.files)
      && (forall i :: 0 <= i < |files| ==> Written(t, out, chunkSize, files[i], plans[i], false))
      && Written(t, after, chunkSize, b.manifestSpec, last, true)
      && Ended(b.bytes, chunkSize, last.next) && last.layout.paxHeaderOffset == |out|
    requires forall i :: 0 <= i < |files| ==> b.files[i].dataOffset + b.files[i].size <= |out|
    requires Separate(b.files)
    ensures Canonical(t, chunkSize, globals, files, FilePlans(chunkSize, globals, files),
                      ManifestPlan(chunkSize, globals, files, manifest), b)
  {
    hide Written, Separate, GlobalWritten, Ended, FilePlans, ManifestPlan, Layouts, EncodeRecords;
    var plans, last := FilePlans(chunkSize, globals, files), ManifestPlan(chunkSize, globals, files, manifest);
    forall i | 0 <= i < |files|
      ensures Written(t, b.bytes, chunkSize, files[i], plans[i], false)
    {
      WrittenStays(t, out, b.bytes, chunkSize, files[i], plans[i], false);
    }
    WrittenStays(t, after, b.bytes, chunkSize, b.manifestSpec, last, true);
    GlobalStays(t, globals, start, b.bytes);
    PlansChained(chunkSize, globals, files, manifest);
    SeparateLast(b.files, b.manifest, |out|);
  }

  lemma GlobalStays(t: Headers, globals: seq<Record>, out: bytes, more: bytes)
    requires GlobalWritten(t, globals, out) && out <= more
    ensures GlobalWritten(t, globals, more)
  {
    hide At, EncodeRecords, Ceil;
    var body := EncodeRecords(globals);
    AtStays(out, more, 0, t.global(|body|));
    AtStays(out, more, 512, body);
    AtStays(out, more, 512 + |body|, Zeros(Ceil(|body|, 512) - |body|));
  }

  lemma PlansChained(chunkSize: nat, globals: seq<Record>, files: seq<Spec>, manifest: seq<Layout> -> Spec)
    requires chunkSize > 0
    ensures Chained(512 + Ceil(|EncodeRecords(globals)|, 512),
                    FilePlans(chunkSize, globals, files) + [ManifestPlan(chunkSize, globals, files, manifest)])
  {
    hide EncodeRecords, PlansFor, PlanFor, Layouts, Ceil;
    var start, plans := FilesStart(globals), FilePlans(chunkSize, globals, files);
    var all := plans + [ManifestPlan(chunkSize, globals, files, manifest)];
    forall i | 0 <= i < |all|
      ensures Follows(start, all, i)
    {
      if i < |plans| {
        NextPlan(chunkSize, start, files, i);
        PlanStarts(chunkSize, PlansEnd(start, plans[..i]), files[i]);
      } else {
        PlanStarts(chunkSize, PlansEnd(start, plans), manifest(Layouts(plans)));
      }
    }
  }

  lemma PlanStarts(chunkSize: nat, offset: nat, s: Spec)
    requires chunkSize > 0
    ensures PlanFor(chunkSize, offset, s).layout.paxHeaderOffset == offset
  {
    hide EncodeRecords, RecordsLen, Insert, SolvedPad, ChunkCount, FirstChunk;
  }

  lemma FitsOrNot(p: Plan)
    ensures TooLong(p) <==> |EncodeRecords(p.records)| > OCTAL_MAX
  {
  }

  lemma StartIsGlobal(t: Headers, globals: seq<Record>, start: bytes)
    requires OneRecordEach(t)
    requires var body := EncodeRecords(globals);
      start == t.global(|body|) + body + Zeros(Ceil(|body|, TAR_RECORD) - |body|)
    ensures Whole(|start|) && |start| == FilesStart(globals) && GlobalWritten(t, globals, start)
  {
    hide EncodeRecords, At;
    var body := EncodeRecords(globals);
    var header, fill := t.global(|body|), Zeros(Ceil(|body|, TAR_RECORD) - |body|);
    AtItself(header);
    AtEnd(header, body);
    AtEnd(header + body, fill);
    AtStays(header, start, 0, header);
    AtStays(header + body, start, 512, body);
  }

  lemma SeparateNone()
    ensures Separate([])
  {
  }

  lemma SeparateLast(layouts: seq<Layout>, last: Layout, end: nat)
    requires Separate(layouts) && last.paxHeaderOffset == end
    requires forall i :: 0 <= i < |layouts| ==> layouts[i].dataOffset + layouts[i].size <= end
    ensures Separate(layouts + [last])
  {
  }
}
