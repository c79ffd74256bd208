/** The payload of a terminal-index replica: structural rows, then Object rows, checked against the header's counts. */
module TerminalIndex {
  import opened Bits
  import opened Outcomes
  import opened ByteStrings
  import opened Envelope
  import opened Arithmetic
  import opened Cbor
  import opened TerminalSlots
  import opened TerminalRows
  import opened TerminalObjects

  const ROW_SLOT: nat := 64
  const OBJECT_SLOT: nat := 256

  // ----- the payload

  /** What has been read after `n` structural rows: the counters, the values and their joined encodings. */
  datatype Mapped = Mapped(walk: Walk, values: seq<Item>, encodings: bytes)

  function SlotAt(payload: bytes, base: nat, size: nat, i: nat): (slot: bytes)
    requires base + (i + 1) * size <= |payload|
    ensures |slot| == size
  {
    Successor(i, size);
    payload[base + i * size..base + (i + 1) * size]
  }

  function MapRows(payload: bytes, n: nat): (r: Option<Mapped>)
    requires n * ROW_SLOT <= |payload|
  {
    if n == 0 then Some(Mapped(START, [], []))
    else
      var before := MapRows(payload, n - 1);
      if before.None? then None
      else
        var slot := DecodeSlot(SlotAt(payload, 0, ROW_SLOT, n - 1), ROW_SLOT);
        if slot.None? then None
        else
          var w := Step(before.value.walk, slot.value.0);
          if w.None? then None
          else Some(Mapped(w.value, before.value.values + [slot.value.0], before.value.encodings + slot.value.1))
  }

  function ObjectRows(payload: bytes, base: nat, blockSize: nat, n: nat): Option<seq<Locator>>
    requires base + n * OBJECT_SLOT <= |payload|
  {
    if n == 0 then Some([])
    else
      var before := ObjectRows(payload, base, blockSize, n - 1);
      if before.None? then None
      else
        var slot := DecodeSlot(SlotAt(payload, base, OBJECT_SLOT, n - 1), OBJECT_SLOT);
        if slot.None? then None
        else
          var l := ObjectFields(slot.value.0, blockSize);
          if l.None? then None else Some(before.value + [l.value])
  }

  function U64At(header: bytes, offset: nat): nat
    requires offset + 8 <= |header|
  {
    Little(header[offset..offset + 8])
  }

  const HEADER_FIELDS: nat := 0x168

  function Records(len: nat, blockSize: nat): nat
    requires blockSize > 0
  {
    if len == 0 then 0 else (len + blockSize - 1) / blockSize
  }

  /** The payload bytes that the header's counts and the physical size agree on. */
  function Payload(data: bytes, header: bytes, blockSize: nat): (r: Option<bytes>)
    requires blockSize > 0 && |header| >= HEADER_FIELDS
    ensures r.Some? ==> |r.value| == U64At(header, 0x60) * ROW_SLOT + U64At(header, 0x68) * OBJECT_SLOT
  {
    var rows, objects := U64At(header, 0x60), U64At(header, 0x68);
    var len := rows * ROW_SLOT + objects * OBJECT_SLOT;
    var records := Records(len, blockSize);
    if len >= U64_LIMIT || len != U64At(header, 0x70) || records != U64At(header, 0x78) then None
    else if records + 2 != U64At(header, 0x80) || records + 1 != U64At(header, 0x98) then None
    else if |data| / blockSize != records + 2 then None
    else
      Fits(|data|, len, blockSize);
      var region := data[blockSize..blockSize * (1 + records)];
      if !AllZero(region[len..]) then None else Some(region[..len])
  }

  lemma Fits(size: nat, len: nat, blockSize: nat)
    requires blockSize > 0 && size / blockSize == Records(len, blockSize) + 2
    ensures var records := Records(len, blockSize);
      blockSize <= blockSize * (1 + records) <= size && len <= blockSize * (1 + records) - blockSize
  {
    var records := Records(len, blockSize);
    DivMod(size, blockSize);
    MulMonotone(1 + records, size / blockSize, blockSize);
    Successor(records, blockSize);
    if len > 0 {
      DivMod(len + blockSize - 1, blockSize);
    }
  }

  /** "REM-TAPE-INDEX-REPLICA-PAYLOAD-V1", and NUL. */
  const PAYLOAD_DOMAIN: bytes := [
    82, 69, 77, 45, 84, 65, 80, 69, 45, 73, 78, 68, 69, 88, 45, 82, 69,
    80, 76, 73, 67, 65, 45, 80, 65, 89, 76, 79, 65, 68, 45, 86, 49, 0]

  lemma DomainSpelling()
    ensures PAYLOAD_DOMAIN == Ascii("REM-TAPE-INDEX-REPLICA-PAYLOAD-V1") + [0]
  {
  }

  datatype Accepted = Accepted(walk: Walk, objectRows: seq<Locator>, payload: bytes, projection: bytes)

  function ValidPayload(data: bytes, header: bytes, blockSize: nat): Option<Accepted>
    requires blockSize > 0 && |header| >= HEADER_FIELDS
  {
    var payload := Payload(data, header, blockSize);
    if payload.None? then None
    else
      var n, objects := U64At(header, 0x60), U64At(header, 0x68);
      var m := MapRows(payload.value, n);
      if m.None? then None
      else
        var w := m.value.walk;
        if (U64At(header, 0x48), U64At(header, 0x50), U64At(header, 0x58)) != (n, w.data, w.protected) then None
        else
          var rows := ObjectRows(payload.value, n * ROW_SLOT, blockSize, objects);
          if rows.None? || rows.value != w.locators then None
          else if Little(header[0x14c..0x150]) != 1 || w.prefixEnd != U64At(header, 0x158) then None
          else Some(Accepted(w, rows.value, payload.value, Head(4, n) + m.value.encodings))
  }

  // ----- what acceptance means

  /** Row `i` is an Object file that holds data ordinal `d`. */
  ghost predicate HoldsData(rows: seq<Row>, i: nat, d: nat) {
    i < |rows| && rows[i].Object? && rows[i].first <= d < rows[i].first + rows[i].blocks
  }

  /** Row `i` is the sidecar of the epoch that protects ordinal `d`. */
  ghost predicate Protects(rows: seq<Row>, i: nat, d: nat) {
    i < |rows| && rows[i].Sidecar? && rows[i].start <= d < rows[i].end
  }

  ghost predicate InObject(rows: seq<Row>, d: nat) {
    exists i: nat :: HoldsData(rows, i, d)
  }

  ghost predicate Protected(rows: seq<Row>, d: nat) {
    exists i: nat :: Protects(rows, i, d)
  }

  /** Every data ordinal below `total` lies in exactly one Object file, and no other ordinal lies in any. */
  ghost predicate DataPartition(rows: seq<Row>, total: nat) {
    && (forall d: nat :: InObject(rows, d) <==> d < total)
    && (forall i: nat, j: nat, d: nat :: HoldsData(rows, i, d) && HoldsData(rows, j, d) ==> i == j)
  }

  ghost predicate ProtectedPartition(rows: seq<Row>, total: nat) {
    && (forall d: nat :: Protected(rows, d) <==> d < total)
    && (forall i: nat, j: nat, d: nat :: Protects(rows, i, d) && Protects(rows, j, d) ==> i == j)
  }

  lemma DataIsSum(rows: seq<Row>, i: nat, d: nat)
    requires RowsFit(rows)
    ensures HoldsData(rows, i, d) <==> Holds(DataSpan, rows, i, d)
  {
    hide Sum;
    if i < |rows| {
      SumAt(DataSpan, rows, i);
      assert RowFits(rows, i);
    }
  }

  lemma ProtectedIsSum(rows: seq<Row>, i: nat, d: nat)
    requires RowsFit(rows)
    ensures Protects(rows, i, d) <==> Holds(ProtectedSpan, rows, i, d)
  {
    hide Sum;
    if i < |rows| {
      SumAt(ProtectedSpan, rows, i);
      assert RowFits(rows, i);
    }
  }

  lemma SumBound(f: Row -> nat, rows: seq<Row>, i: nat, d: nat)
    requires Holds(f, rows, i, d)
    ensures d < Sum(f, rows)
  {
    hide Sum;
    SumMonotone(f, rows, i + 1, |rows|);
    assert rows[..|rows|] == rows;
  }

  lemma RowsPartitionData(rows: seq<Row>)
    requires RowsFit(rows)
    ensures DataPartition(rows, Sum(DataSpan, rows))
  {
    hide Sum, RowsFit, HoldsData;
    assert rows[..|rows|] == rows;
    forall d: nat
      ensures InObject(rows, d) <==> d < Sum(DataSpan, rows)
    {
      if d < Sum(DataSpan, rows) {
        var i := SomeHolds(DataSpan, rows, |rows|, d);
        DataIsSum(rows, i, d);
      }
      if i: nat :| HoldsData(rows, i, d) {
        DataIsSum(rows, i, d);
        SumBound(DataSpan, rows, i, d);
      }
    }
    forall i: nat, j: nat, d: nat | HoldsData(rows, i, d) && HoldsData(rows, j, d)
      ensures i == j
    {
      DataIsSum(rows, i, d);
      DataIsSum(rows, j, d);
      OnlyOneHolds(DataSpan, rows, i, j, d);
    }
  }

  lemma RowsPartitionProtected(rows: seq<Row>)
    requires RowsFit(rows)
    ensures ProtectedPartition(rows, Sum(ProtectedSpan, rows))
  {
    hide Sum, RowsFit, Protects;
    assert rows[..|rows|] == rows;
    forall d: nat
      ensures Protected(rows, d) <==> d < Sum(ProtectedSpan, rows)
    {
      if d < Sum(ProtectedSpan, rows) {
        var i := SomeHolds(ProtectedSpan, rows, |rows|, d);
        ProtectedIsSum(rows, i, d);
      }
      if i: nat :| Protects(rows, i, d) {
        ProtectedIsSum(rows, i, d);
        SumBound(ProtectedSpan, rows, i, d);
      }
    }
    forall i: nat, j: nat, d: nat | Protects(rows, i, d) && Protects(rows, j, d)
      ensures i == j
    {
      ProtectedIsSum(rows, i, d);
      ProtectedIsSum(rows, j, d);
      OnlyOneHolds(ProtectedSpan, rows, i, j, d);
    }
  }

  /** Each of the first `n` slots holds exactly the encoding of its row. */
  ghost predicate SlotsHold(payload: bytes, n: nat, values: seq<Item>)
    requires n * ROW_SLOT <= |payload|
  {
    |values| == n && forall i :: 0 <= i < n ==> SlotHolds(payload, i, values[i])
  }

  ghost predicate SlotHolds(payload: bytes, i: nat, v: Item) {
    && (i + 1) * ROW_SLOT <= |payload| && Admits(TerminalSlots.PROFILE, 0, v) && |Print(v)| + 2 <= ROW_SLOT
    && SlotAt(payload, 0, ROW_SLOT, i) == Slot(v, ROW_SLOT)
  }

  lemma {:induction false} PrintAllLast(xs: seq<Item>, x: Item)
    ensures PrintAll(xs + [x]) == PrintAll(xs) + Print(x)
    decreases |xs|
  {
    hide Print;
    var all := xs + [x];
    if |xs| == 0 {
      assert all[1..] == [];
    } else {
      assert all[1..] == xs[1..] + [x];
      PrintAllLast(xs[1..], x);
    }
  }

  lemma {:induction false} MapsForward(payload: bytes, n: nat)
    requires n * ROW_SLOT <= |payload| && MapRows(payload, n).Some?
    ensures var m := MapRows(payload, n).value;
      SlotsHold(payload, n, m.values) && WalkAll(m.values) == Some(m.walk) && m.encodings == PrintAll(m.values)
  {
    hide Step, Print, Admits, DecodeSlot, Slot, SlotAt;
    if n > 0 {
      MapsForward(payload, n - 1);
      var before := MapRows(payload, n - 1).value;
      var (v, encoded) := DecodeSlot(SlotAt(payload, 0, ROW_SLOT, n - 1), ROW_SLOT).value;
      DecodesExactly(SlotAt(payload, 0, ROW_SLOT, n - 1), ROW_SLOT, v, encoded);
      PrintAllLast(before.values, v);
      var values := before.values + [v];
      assert values[..n - 1] == before.values;
    }
  }

  lemma {:induction false} MapsBackward(payload: bytes, n: nat, values: seq<Item>)
    requires n * ROW_SLOT <= |payload| && SlotsHold(payload, n, values) && WalkAll(values).Some?
    ensures MapRows(payload, n) == Some(Mapped(WalkAll(values).value, values, PrintAll(values)))
  {
    hide Step, Print, Admits, DecodeSlot, Slot, SlotAt;
    if n > 0 {
      var before, v := values[..n - 1], values[n - 1];
      assert values == before + [v];
      assert SlotHolds(payload, n - 1, v);
      MapsBackward(payload, n - 1, before);
      DecodesExactly(SlotAt(payload, 0, ROW_SLOT, n - 1), ROW_SLOT, v, Print(v));
      PrintAllLast(before, v);
    }
  }

  /** Rows are accepted exactly when their slots encode fitting rows; the projection is the encodings of all of them. */
  lemma MapsExactly(payload: bytes, n: nat, m: Mapped)
    requires n * ROW_SLOT <= |payload|
    ensures MapRows(payload, n) == Some(m)
       <==> SlotsHold(payload, n, m.values) && Fitting(m.values, m.walk) && m.encodings == PrintAll(m.values)
  {
    hide MapRows, WalkAll, SlotsHold, Fitting, PrintAll;
    if MapRows(payload, n) == Some(m) {
      MapsForward(payload, n);
      WalkIsFitting(m.values);
    }
    if SlotsHold(payload, n, m.values) && Fitting(m.values, m.walk) {
      FittingIsWalked(m.values, m.walk);
      MapsBackward(payload, n, m.values);
    }
  }

  /** Slot `i` of the Object region holds exactly the encoding of an Object row of the file `l`. */
  ghost predicate ObjectSlotHolds(payload: bytes, base: nat, blockSize: nat, i: nat, l: Locator) {
    base + (i + 1) * OBJECT_SLOT <= |payload| &&
    exists v :: HoldsRow(SlotAt(payload, base, OBJECT_SLOT, i), blockSize, v, l)
  }

  ghost predicate HoldsRow(slot: bytes, blockSize: nat, v: Item, l: Locator) {
    && Admits(TerminalSlots.PROFILE, 0, v) && |Print(v)| + 2 <= OBJECT_SLOT && slot == Slot(v, OBJECT_SLOT)
    && ObjectRow(v, l, blockSize)
  }

  ghost predicate ObjectSlotsHold(payload: bytes, base: nat, blockSize: nat, ls: seq<Locator>) {
    forall i :: 0 <= i < |ls| ==> ObjectSlotHolds(payload, base, blockSize, i, ls[i])
  }

  lemma ObjectSlotExactly(payload: bytes, base: nat, blockSize: nat, i: nat, l: Locator)
    requires base + (i + 1) * OBJECT_SLOT <= |payload|
    ensures
      var slot := DecodeSlot(SlotAt(payload, base, OBJECT_SLOT, i), OBJECT_SLOT);
      (slot.Some? && ObjectFields(slot.value.0, blockSize) == Some(l))
      <==> ObjectSlotHolds(payload, base, blockSize, i, l)
  {
    hide DecodeSlot, SlotAt, ObjectFields, ObjectRow, Admits, Print, Slot;
    var slot := SlotAt(payload, base, OBJECT_SLOT, i);
    var decoded := DecodeSlot(slot, OBJECT_SLOT);
    if decoded.Some? {
      var (v, encoded) := decoded.value;
      DecodesExactly(slot, OBJECT_SLOT, v, encoded);
      AcceptsExactlyRows(v, blockSize, l);
      assert ObjectFields(v, blockSize) == Some(l) ==> HoldsRow(slot, blockSize, v, l);
    }
    if v :| HoldsRow(slot, blockSize, v, l) {
      DecodesExactly(slot, OBJECT_SLOT, v, Print(v));
      AcceptsExactlyRows(v, blockSize, l);
    }
  }

  /** Object rows are read as `ls` exactly when each slot encodes an Object row of its file. */
  lemma {:induction false} ObjectsExactly(payload: bytes, base: nat, blockSize: nat, n: nat, ls: seq<Locator>)
    requires base + n * OBJECT_SLOT <= |payload|
    ensures ObjectRows(payload, base, blockSize, n) == Some(ls)
       <==> |ls| == n && ObjectSlotsHold(payload, base, blockSize, ls)
    decreases n
  {
    hide DecodeSlot, SlotAt, ObjectFields, ObjectSlotHolds;
    if n > 0 {
      ObjectRowCount(payload, base, blockSize, n);
      if ObjectRows(payload, base, blockSize, n) == Some(ls) {
        var before, l := ls[..n - 1], ls[n - 1];
        ObjectsExactly(payload, base, blockSize, n - 1, before);
        ObjectSlotExactly(payload, base, blockSize, n - 1, l);
      }
      if |ls| == n && ObjectSlotsHold(payload, base, blockSize, ls) {
        var before, l := ls[..n - 1], ls[n - 1];
        ObjectsExactly(payload, base, blockSize, n - 1, before);
        ObjectSlotExactly(payload, base, blockSize, n - 1, l);
        assert ls == before + [l];
      }
    }
  }

  ghost predicate EncodesRows(values: seq<Item>, rows: seq<Row>) {
    |values| == |rows| && forall i :: 0 <= i < |rows| ==> values[i] == RowItem(i, rows[i])
  }

  /**
   An accepted payload partitions the data ordinals among its Object files and the protected ordinals among its
   sidecars; its Object rows name exactly the Object files, in order; files and filemarks fill the tape up to
   replica A.
   */
  lemma AcceptedIsPartition(data: bytes, header: bytes, blockSize: nat)
    requires blockSize > 0 && |header| >= HEADER_FIELDS && ValidPayload(data, header, blockSize).Some?
    ensures
      var a := ValidPayload(data, header, blockSize).value;
      var rows := a.walk.rows;
      && |rows| == U64At(header, 0x48) == U64At(header, 0x60)
      && DataPartition(rows, U64At(header, 0x50)) && ProtectedPartition(rows, U64At(header, 0x58))
      && a.objectRows == Locators(rows) && |a.objectRows| == U64At(header, 0x68)
      && Sum(FileSpan, rows) == U64At(header, 0x158)
      && RowsFit(rows)
      && blockSize + U64At(header, 0x70) <= |data| && a.payload == data[blockSize..blockSize + U64At(header, 0x70)]
      && exists values: seq<Item> :: EncodesRows(values, rows) && a.projection == Print(Array(values))
  {
    hide MapRows, U64At, Little, Head, ObjectRows, Payload, SlotsHold, RowItem, RowsFit, Locators, Sum,
      DataPartition, ProtectedPartition;
    var payload := Payload(data, header, blockSize).value;
    var n := U64At(header, 0x60);
    var m := MapRows(payload, n).value;
    MapsExactly(payload, n, m);
    SlotCount(payload, n, m.values);
    RowsPartitionData(m.walk.rows);
    RowsPartitionProtected(m.walk.rows);
    ObjectRowCount(payload, n * ROW_SLOT, blockSize, U64At(header, 0x68));
    PrintArray(m.values);
    PayloadStands(data, header, blockSize);
  }

  /** The payload is the declared number of bytes after the header record. */
  lemma PayloadStands(data: bytes, header: bytes, blockSize: nat)
    requires blockSize > 0 && |header| >= HEADER_FIELDS && Payload(data, header, blockSize).Some?
    ensures var len := U64At(header, 0x70);
      blockSize + len <= |data| && Payload(data, header, blockSize).value == data[blockSize..blockSize + len]
  {
    hide U64At, Records, AllZero;
    var len := U64At(header, 0x70);
    Fits(|data|, len, blockSize);
  }

  lemma PrintArray(values: seq<Item>)
    ensures Print(Array(values)) == Head(4, |values|) + PrintAll(values)
  {
  }

  lemma SlotCount(payload: bytes, n: nat, values: seq<Item>)
    requires n * ROW_SLOT <= |payload| && SlotsHold(payload, n, values)
    ensures |values| == n
  {
  }

  lemma {:induction false} ObjectRowCount(payload: bytes, base: nat, blockSize: nat, n: nat)
    requires base + n * OBJECT_SLOT <= |payload|
    ensures var r := ObjectRows(payload, base, blockSize, n); r.Some? ==> |r.value| == n
  {
    hide DecodeSlot, ObjectFields;
    if n > 0 {
      ObjectRowCount(payload, base, blockSize, n - 1);
    }
  }

  // ----- exactly which payloads are accepted

  /** What the header says of the payload and of the data fits together. */
  ghost predicate Counted(header: bytes, blockSize: nat, size: nat)
    requires |header| >= HEADER_FIELDS
  {
    var len, records := U64At(header, 0x70), U64At(header, 0x78);
    && len == 64 * U64At(header, 0x60) + 256 * U64At(header, 0x68)
    && len <= records * blockSize < len + blockSize
    && U64At(header, 0x80) == records + 2 && U64At(header, 0x98) == records + 1
    && (records + 2) * blockSize <= size < (records + 3) * blockSize
  }

  /** The payload starts in the second record and its records are filled up with zeros. */
  ghost predicate PayloadIn(data: bytes, header: bytes, blockSize: nat, payload: bytes)
    requires |header| >= HEADER_FIELDS
  {
    && Counted(header, blockSize, |data|) && |payload| == U64At(header, 0x70) && At(data, blockSize, payload)
    && forall i :: blockSize + |payload| <= i < blockSize * (1 + U64At(header, 0x78)) && i < |data| ==> data[i] == 0
  }

  /** The rows fit, their slots and the Object slots encode them, and the header states their sums. */
  ghost predicate RowsIn(header: bytes, payload: bytes, blockSize: nat, rows: seq<Row>)
    requires |header| >= HEADER_FIELDS
  {
    var ls := Locators(rows);
    && |rows| == U64At(header, 0x60) == U64At(header, 0x48) && |ls| == U64At(header, 0x68)
    && RowsFit(rows)
    && (forall i :: 0 <= i < |rows| ==> SlotHolds(payload, i, RowItem(i, rows[i])))
    && ObjectSlotsHold(payload, 64 * |rows|, blockSize, ls)
    && Sum(DataSpan, rows) == U64At(header, 0x50) && Sum(ProtectedSpan, rows) == U64At(header, 0x58)
    && header[0x14c..0x150] == [1, 0, 0, 0] && Sum(FileSpan, rows) == U64At(header, 0x158)
  }

  lemma U64Fits(header: bytes, offset: nat)
    requires offset + 8 <= |header|
    ensures U64At(header, offset) < U64_LIMIT
  {
    hide Little, ToLittle, Pow256;
    EncodeLittle(header[offset..offset + 8]);
    Pow256Values();
  }

  lemma RecordsAre(len: nat, blockSize: nat, r: nat)
    requires blockSize > 0
    ensures Records(len, blockSize) == r <==> len <= r * blockSize < len + blockSize
  {
    var q := Records(len, blockSize);
    if len > 0 {
      DivMod(len + blockSize - 1, blockSize);
    }
    assert len <= q * blockSize < len + blockSize;
    if len <= r * blockSize < len + blockSize {
      if q < r {
        MulMonotone(q + 1, r, blockSize);
        Successor(q, blockSize);
      } else if r < q {
        MulMonotone(r + 1, q, blockSize);
        Successor(r, blockSize);
      }
    }
  }

  lemma QuotientIs(n: nat, c: nat, q: nat)
    requires c > 0
    ensures n / c == q <==> q * c <= n < (q + 1) * c
  {
    DivMod(n, c);
    Successor(q, c);
    if q * c <= n < (q + 1) * c {
      DivUnique(n, c, q, n - q * c);
    }
  }

  lemma CountsExactly(header: bytes, blockSize: nat, size: nat)
    requires blockSize > 0 && |header| >= HEADER_FIELDS
    ensures
      var len := U64At(header, 0x60) * ROW_SLOT + U64At(header, 0x68) * OBJECT_SLOT;
      var records := Records(len, blockSize);
      Counted(header, blockSize, size) <==>
        && len < U64_LIMIT && len == U64At(header, 0x70) && records == U64At(header, 0x78)
        && records + 2 == U64At(header, 0x80) && records + 1 == U64At(header, 0x98)
        && size / blockSize == records + 2
  {
    hide U64At, Records;
    var len, records := U64At(header, 0x70), U64At(header, 0x78);
    U64Fits(header, 0x70);
    RecordsAre(len, blockSize, records);
    QuotientIs(size, blockSize, records + 2);
  }

  lemma RegionExactly(data: bytes, start: nat, len: nat, end: nat, payload: bytes)
    requires start + len <= end <= |data|
    ensures
      var region := data[start..end];
      (AllZero(region[len..]) && payload == region[..len]) <==>
        && |payload| == len && At(data, start, payload)
        && (forall i :: start + len <= i < end ==> data[i] == 0)
  {
    var region := data[start..end];
    assert region[..len] == data[start..start + len];
    assert region[len..] == data[start + len..end];
    if AllZero(region[len..]) {
      forall i | start + len <= i < end ensures data[i] == 0 {
        assert data[i] == data[start + len..end][i - start - len];
      }
    }
  }

  lemma PayloadExactly(data: bytes, header: bytes, blockSize: nat, payload: bytes)
    requires blockSize > 0 && |header| >= HEADER_FIELDS
    ensures Payload(data, header, blockSize) == Some(payload) <==> PayloadIn(data, header, blockSize, payload)
  {
    hide U64At, Records, Counted, AllZero, At;
    CountsExactly(header, blockSize, |data|);
    if Counted(header, blockSize, |data|) {
      var len := U64At(header, 0x70);
      Fits(|data|, len, blockSize);
      RegionExactly(data, blockSize, len, blockSize * (1 + Records(len, blockSize)), payload);
    }
  }

  lemma OneFilemark(b: bytes)
    requires |b| == 4
    ensures Little(b) == 1 <==> b == [1, 0, 0, 0]
  {
    EncodeLittle(b);
    assert ToLittle(1, 4) == [1] + ToLittle(0, 3);
    assert ToLittle(0, 3) == [0, 0, 0];
    assert Little([1, 0, 0, 0]) == 1 + 256 * Little([0, 0, 0]) by {
      assert [1, 0, 0, 0][1..] == [0, 0, 0];
    }
    DecodeLittle(0, 3);
  }

  /** The walk of fitting rows. */
  ghost function WalkOf(rows: seq<Row>): Walk {
    Walk(rows, |rows|, Sum(DataSpan, rows), Sum(ProtectedSpan, rows), Sum(SidecarSpan, rows), Sum(FileSpan, rows),
         Locators(rows))
  }

  ghost function Items(rows: seq<Row>): (values: seq<Item>)
    ensures EncodesRows(values, rows)
  {
    seq(|rows|, i requires 0 <= i < |rows| => RowItem(i, rows[i]))
  }

  lemma AcceptedIsIn(data: bytes, header: bytes, blockSize: nat)
    requires blockSize > 0 && |header| >= HEADER_FIELDS && ValidPayload(data, header, blockSize).Some?
    ensures var a := ValidPayload(data, header, blockSize).value;
      PayloadIn(data, header, blockSize, a.payload) && RowsIn(header, a.payload, blockSize, a.walk.rows)
  {
    hide MapRows, U64At, Little, Head, ObjectRows, Payload, PayloadIn, RowItem, RowsFit, Locators, Sum, ObjectSlotsHold,
      SlotHolds;
    var a := ValidPayload(data, header, blockSize).value;
    var n := U64At(header, 0x60);
    PayloadExactly(data, header, blockSize, a.payload);
    MapsExactly(a.payload, n, MapRows(a.payload, n).value);
    ObjectsExactly(a.payload, n * ROW_SLOT, blockSize, U64At(header, 0x68), a.objectRows);
    OneFilemark(header[0x14c..0x150]);
  }

  lemma InIsAccepted(data: bytes, header: bytes, blockSize: nat, payload: bytes, rows: seq<Row>)
    requires blockSize > 0 && |header| >= HEADER_FIELDS
    requires PayloadIn(data, header, blockSize, payload) && RowsIn(header, payload, blockSize, rows)
    ensures var a := ValidPayload(data, header, blockSize); a.Some? && a.value.walk.rows == rows
  {
    hide MapRows, U64At, Little, Head, ObjectRows, Payload, PayloadIn, RowItem, RowsFit, Locators, Sum, ObjectSlotsHold,
      SlotHolds;
    var n := U64At(header, 0x60);
    U64Fits(header, 0x50);
    U64Fits(header, 0x158);
    PayloadExactly(data, header, blockSize, payload);
    MapsExactly(payload, n, Mapped(WalkOf(rows), Items(rows), PrintAll(Items(rows))));
    ObjectsExactly(payload, n * ROW_SLOT, blockSize, U64At(header, 0x68), Locators(rows));
    OneFilemark(header[0x14c..0x150]);
  }

  /** A payload is accepted with certain rows exactly when it stands in the data and these rows in it. */
  lemma AcceptsExactly(data: bytes, header: bytes, blockSize: nat, rows: seq<Row>)
    requires blockSize > 0 && |header| >= HEADER_FIELDS
    ensures
      var a := ValidPayload(data, header, blockSize);
      (a.Some? && a.value.walk.rows == rows)
      <==> exists payload ::
             PayloadIn(data, header, blockSize, payload) && RowsIn(header, payload, blockSize, rows)
  {
    hide ValidPayload, PayloadIn, RowsIn;
    if ValidPayload(data, header, blockSize).Some? {
      AcceptedIsIn(data, header, blockSize);
    }
    if payload :| PayloadIn(data, header, blockSize, payload) && RowsIn(header, payload, blockSize, rows) {
      InIsAccepted(data, header, blockSize, payload, rows);
    }
  }

  // ----- the checker as it runs

  /** `validate_payload`: the digests of an accepted payload and of its structural map. */
  method ValidatePayload(sha256: bytes -> bytes, data: bytes, header: bytes, blockSize: nat)
    returns (r: Option<(bytes, bytes)>)
    requires blockSize > 0 && |header| >= HEADER_FIELDS
    ensures
      var a := ValidPayload(data, header, blockSize);
      r == if a.None? then None else Some((sha256(PAYLOAD_DOMAIN + a.value.payload), sha256(a.value.projection)))
  {
    hide Payload, MapRows, ObjectRows, Head, Little;
    var region := Payload(data, header, blockSize);
    if region.None? {
      return None;
    }
    var payload := region.value;
    var structural, objects := U64At(header, 0x60), U64At(header, 0x68);
    var mapped := MapAll(payload, structural);
    if mapped.None? {
      return None;
    }
    var w := mapped.value.walk;
    if U64At(header, 0x48) != structural || U64At(header, 0x50) != w.data || U64At(header, 0x58) != w.protected {
      return None;
    }
    var rows := ReadObjectRows(payload, structural * ROW_SLOT, blockSize, objects);
    if rows.None? || rows.value != w.locators {
      return None;
    }
    if Little(header[0x14c..0x150]) != 1 || w.prefixEnd != U64At(header, 0x158) {
      return None;
    }
    return Some((sha256(PAYLOAD_DOMAIN + payload), sha256(Head(4, structural) + mapped.value.encodings)));
  }

  /** The loop over structural rows, with its running counters in plain variables. */
  method MapAll(payload: bytes, count: nat) returns (r: Option<Mapped>)
    requires count * ROW_SLOT <= |payload|
    ensures r == MapRows(payload, count)
  {
    hide DecodeSlot, SlotAt, ReadRow;
    var rows, values, encodings, locators := [], [], [], [];
    var expectedData: nat, expectedProtected: nat, expectedEpoch: nat, prefixEnd: nat := 0, 0, 0, 0;
    for index := 0 to count
      invariant MapRows(payload, index)
             == Some(Mapped(Walk(rows, index, expectedData, expectedProtected, expectedEpoch, prefixEnd, locators),
                            values, encodings))
    {
      var w := Walk(rows, index, expectedData, expectedProtected, expectedEpoch, prefixEnd, locators);
      var slot := DecodeSlot(SlotAt(payload, 0, ROW_SLOT, index), ROW_SLOT);
      var row := if slot.None? then None else ReadRow(w, slot.value.0);
      if row.None? {
        MapStops(payload, index + 1, count);
        return None;
      }
      if row.value.Object? {
        locators := locators + [Locator(index, row.value.blocks)];
        expectedData := expectedData + row.value.blocks;
      } else if row.value.Sidecar? {
        expectedProtected := expectedProtected + ProtectedSpan(row.value);
        expectedEpoch := expectedEpoch + 1;
      }
      prefixEnd := prefixEnd + (row.value.blocks + 1);
      if expectedData >= U64_LIMIT || prefixEnd >= U64_LIMIT {
        MapStops(payload, index + 1, count);
        return None;
      }
      rows, values, encodings := rows + [row.value], values + [slot.value.0], encodings + slot.value.1;
      assert locators == w.locators + (if row.value.Object? then [Locator(index, row.value.blocks)] else []);
    }
    var walk := Walk(rows, count, expectedData, expectedProtected, expectedEpoch, prefixEnd, locators);
    return Some(Mapped(walk, values, encodings));
  }

  lemma {:induction false} MapStops(payload: bytes, n: nat, m: nat)
    requires n <= m && m * ROW_SLOT <= |payload| && MapRows(payload, n).None?
    ensures MapRows(payload, m).None?
  {
    hide DecodeSlot, SlotAt, Step;
    if n < m {
      MapStops(payload, n, m - 1);
    }
  }

  method ReadObjectRows(payload: bytes, base: nat, blockSize: nat, count: nat) returns (r: Option<seq<Locator>>)
    requires base + count * OBJECT_SLOT <= |payload|
    ensures r == ObjectRows(payload, base, blockSize, count)
  {
    hide DecodeSlot, SlotAt, ObjectFields;
    var rows := [];
    for index := 0 to count
      invariant ObjectRows(payload, base, blockSize, index) == Some(rows)
    {
      var slot := DecodeSlot(SlotAt(payload, base, OBJECT_SLOT, index), OBJECT_SLOT);
      var locator := if slot.None? then None else ObjectFields(slot.value.0, blockSize);
      if locator.None? {
        ObjectRowsStop(payload, base, blockSize, index + 1, count);
        return None;
      }
      rows := rows + [locator.value];
    }
    return Some(rows);
  }

  lemma {:induction false} ObjectRowsStop(payload: bytes, base: nat, blockSize: nat, n: nat, m: nat)
    requires n <= m && base + m * OBJECT_SLOT <= |payload| && ObjectRows(payload, base, blockSize, n).None?
    ensures ObjectRows(payload, base, blockSize, m).None?
  {
    hide DecodeSlot, SlotAt, ObjectFields;
    if n < m {
      ObjectRowsStop(payload, base, blockSize, n, m - 1);
    }
  }
}
