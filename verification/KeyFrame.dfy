/** The wrapped-key frame: recipient slots in canonical order, parsed strictly and serialized byte-exactly. */
module KeyFrame {
  import opened Bits
  import opened Outcomes
  import opened ByteStrings
  import opened Envelope

  /** "REMK" */
  const MAGIC: bytes := [82, 69, 77, 75]
  const MAX_SLOTS: nat := 8
  const MAX_LABEL: nat := 32
  /** A slot without its label. */
  const SLOT_FIXED_LEN: nat := 1186

  /** One recipient's wrapped data-encryption key. */
  datatype Slot = Slot(index: byte, epochId: bytes, epochLabel: bytes, enc: bytes, ciphertext: bytes)

  predicate Typed(s: Slot) {
    |s.epochId| == 16 && |s.enc| == XWING_CIPHERTEXT_LEN && |s.ciphertext| == WRAPPED_DEK_LEN
  }

  predicate LabelOk(epochLabel: bytes) {
    |epochLabel| <= MAX_LABEL && forall i :: 0 <= i < |epochLabel| ==> 0x20 <= epochLabel[i] <= 0x7e
  }

  predicate EpochSeen(slots: seq<Slot>, epochId: bytes) {
    exists i :: 0 <= i < |slots| && slots[i].epochId == epochId
  }

  /** Slot indices increase, epochs are distinct, labels are short and printable. */
  predicate Canonical(slots: seq<Slot>) {
    && (forall i :: 1 <= i < |slots| ==> slots[i - 1].index < slots[i].index)
    && (forall i :: 0 <= i < |slots| ==> !EpochSeen(slots[..i], slots[i].epochId))
    && (forall i :: 0 <= i < |slots| ==> LabelOk(slots[i].epochLabel))
  }

  predicate Valid(slots: seq<Slot>) {
    1 <= |slots| <= MAX_SLOTS && Canonical(slots)
  }

  /** One to eight slots in index order, with different epochs and labels of at most 32 printable characters. */
  lemma ValidIff(slots: seq<Slot>)
    ensures Valid(slots) <==>
      && 1 <= |slots| <= 8
      && (forall i, j :: 0 <= i < j < |slots| ==> slots[i].index < slots[j].index)
      && (forall i, j :: 0 <= i < j < |slots| ==> slots[i].epochId != slots[j].epochId)
      && (forall i :: 0 <= i < |slots| ==> |slots[i].epochLabel| <= 32)
      && (forall i, k :: 0 <= i < |slots| && 0 <= k < |slots[i].epochLabel| ==>
            ' ' as nat <= slots[i].epochLabel[k] <= '~' as nat)
  {
    if Valid(slots) {
      forall i, j | 0 <= i < j < |slots|
        ensures slots[i].index < slots[j].index && slots[i].epochId != slots[j].epochId
      {
        IndicesIncrease(slots, i, j);
        assert slots[..j][i] == slots[i];
        assert !EpochSeen(slots[..j], slots[j].epochId);
      }
    }
  }

  lemma {:induction false} IndicesIncrease(slots: seq<Slot>, i: nat, j: nat)
    requires forall k :: 1 <= k < |slots| ==> slots[k - 1].index < slots[k].index
    requires i < j < |slots|
    ensures slots[i].index < slots[j].index
    decreases j
  {
    if i < j - 1 {
      IndicesIncrease(slots, i, j - 1);
    }
  }

  /** The fixed widths that the slot type gives every slot. */
  predicate AllTyped(slots: seq<Slot>) {
    forall i :: 0 <= i < |slots| ==> Typed(slots[i])
  }

  // ----- the wire form

  function SlotWire(s: Slot): bytes
    requires LabelOk(s.epochLabel)
  {
    [s.index] + s.epochId + [|s.epochLabel|] + s.epochLabel + s.enc + s.ciphertext
  }

  predicate Labelled(slots: seq<Slot>) {
    forall i :: 0 <= i < |slots| ==> LabelOk(slots[i].epochLabel)
  }

  function SlotsWire(slots: seq<Slot>): bytes
    requires Labelled(slots)
  {
    if |slots| == 0 then [] else SlotWire(slots[0]) + SlotsWire(slots[1..])
  }

  function Wire(slots: seq<Slot>): bytes
    requires Valid(slots)
  {
    MAGIC + [|slots|] + SlotsWire(slots)
  }

  function Serialize(slots: seq<Slot>): Outcome<bytes> {
    if !Valid(slots) then Err(InvalidKeyFrame)
    else if !(KEY_FRAME_MIN_LEN <= |Wire(slots)| <= KEY_FRAME_MAX_LEN) then Err(InvalidKeyFrameLength)
    else Ok(Wire(slots))
  }

  // ----- parsing

  /** A slot, offset by offset. */
  lemma SlotLayout(s: Slot)
    requires Typed(s) && LabelOk(s.epochLabel)
    ensures
      var w, n := SlotWire(s), |s.epochLabel|;
      && |w| == 1186 + n && n <= 32 && w[0] == s.index && w[1..17] == s.epochId && w[17] == n
      && w[18..18 + n] == s.epochLabel && w[18 + n..1138 + n] == s.enc && w[1138 + n..] == s.ciphertext
  {
  }

  /** A frame: its magic, the number of slots, and each slot where the one before it ends. */
  lemma FrameLayout(slots: seq<Slot>, i: nat)
    requires AllTyped(slots) && Valid(slots) && i < |slots|
    ensures
      var w := Wire(slots);
      && w[..4] == Ascii("REMK") && w[4] == |slots|
      && At(w, 5 + 1186 * i + LabelLengths(slots[..i]), SlotWire(slots[i]))
      && |w| == 5 + 1186 * |slots| + LabelLengths(slots)
  {
    hide SlotsWire, SlotWire, Canonical;
    CanonicalIsLabelled(slots);
    var w := Wire(slots);
    assert MAGIC == Ascii("REMK");
    SlotStands(slots, i);
    AtSuffix(MAGIC + [|slots|], SlotsWire(slots), 1186 * i + LabelLengths(slots[..i]), SlotWire(slots[i]));
    assert slots[..|slots|] == slots;
  }

  function LabelLengths(slots: seq<Slot>): nat {
    if |slots| == 0 then 0 else |slots[0].epochLabel| + LabelLengths(slots[1..])
  }

  lemma {:induction false} SlotStands(slots: seq<Slot>, i: nat)
    requires AllTyped(slots) && Labelled(slots) && i < |slots|
    ensures |SlotsWire(slots)| == 1186 * |slots| + LabelLengths(slots)
    ensures At(SlotsWire(slots), 1186 * i + LabelLengths(slots[..i]), SlotWire(slots[i]))
    decreases |slots|
  {
    hide SlotWire, LabelOk, At;
    var first, rest := slots[0], slots[1..];
    SlotLayout(first);
    if |rest| > 0 {
      SlotStands(rest, if i == 0 then 0 else i - 1);
    }
    if i == 0 {
      AtItself(SlotWire(first));
      AtPrefix(SlotWire(first), SlotsWire(rest), 0, SlotWire(first));
    } else {
      assert slots[..i][1..] == rest[..i - 1];
      AtSuffix(SlotWire(first), SlotsWire(rest), 1186 * (i - 1) + LabelLengths(rest[..i - 1]), SlotWire(slots[i]));
    }
  }

  datatype SlotRead = SlotRead(slot: Slot, cursor: nat)

  function ParseSlot(b: bytes, cursor: nat): (r: Outcome<SlotRead>)
    ensures r.Ok? ==> cursor < r.value.cursor <= |b| && Typed(r.value.slot) && LabelOk(r.value.slot.epochLabel)
  {
    if cursor + 18 > |b| then Err(InvalidKeyFrame)
    else
      var n := b[cursor + 17];
      var at := cursor + 18;
      if n > MAX_LABEL || at + n > |b| || !LabelOk(b[at..at + n]) then Err(InvalidKeyFrame)
      else
        var e := at + n;
        var c := e + XWING_CIPHERTEXT_LEN;
        if c + WRAPPED_DEK_LEN > |b| then Err(InvalidKeyFrame)
        else Ok(SlotRead(Slot(b[cursor], b[cursor + 1..cursor + 17], b[at..e], b[e..c], b[c..c + WRAPPED_DEK_LEN]),
                         c + WRAPPED_DEK_LEN))
  }

  datatype SlotsRead = SlotsRead(slots: seq<Slot>, cursor: nat)

  function ParseSlots(b: bytes, cursor: nat, n: nat): (r: Outcome<SlotsRead>)
    ensures r.Ok? ==> |r.value.slots| == n && AllTyped(r.value.slots) && Labelled(r.value.slots)
    decreases n
  {
    if n == 0 then Ok(SlotsRead([], cursor))
    else
      var first := ParseSlot(b, cursor);
      if first.Err? then Err(first.error)
      else
        var rest := ParseSlots(b, first.value.cursor, n - 1);
        if rest.Err? then Err(rest.error)
        else Ok(SlotsRead([first.value.slot] + rest.value.slots, rest.value.cursor))
  }

  function Parse(b: bytes): Outcome<seq<Slot>> {
    if !(KEY_FRAME_MIN_LEN <= |b| <= KEY_FRAME_MAX_LEN) then Err(InvalidKeyFrameLength)
    else if b[..4] != MAGIC || !(1 <= b[4] <= MAX_SLOTS) then Err(InvalidKeyFrame)
    else
      var r := ParseSlots(b, 5, b[4]);
      if r.Err? then Err(r.error)
      else if r.value.cursor != |b| || !Valid(r.value.slots) then Err(InvalidKeyFrame)
      else Ok(r.value.slots)
  }

  // ----- sizes

  lemma SlotWireLength(s: Slot)
    requires Typed(s) && LabelOk(s.epochLabel)
    ensures |SlotWire(s)| == SLOT_FIXED_LEN + |s.epochLabel|
  {
  }

  lemma {:induction false} SlotsWireLength(slots: seq<Slot>)
    requires AllTyped(slots) && Labelled(slots)
    ensures SLOT_FIXED_LEN * |slots| <= |SlotsWire(slots)| <= (SLOT_FIXED_LEN + MAX_LABEL) * |slots|
  {
    if |slots| > 0 {
      SlotWireLength(slots[0]);
      SlotsWireLength(slots[1..]);
    }
  }

  /** Every valid frame is between 1191 and 9749 bytes long, so serializing it cannot fail. */
  lemma SerializeNeverTooLong(slots: seq<Slot>)
    requires AllTyped(slots) && Valid(slots)
    ensures 1191 <= |Wire(slots)| <= 9749 && Serialize(slots) == Ok(Wire(slots))
  {
    SlotsWireLength(slots);
  }

  // ----- serialize, then parse

  lemma ParsesSlot(b: bytes, cursor: nat, s: Slot)
    requires Typed(s) && LabelOk(s.epochLabel) && At(b, cursor, SlotWire(s))
    ensures ParseSlot(b, cursor) == Ok(SlotRead(s, cursor + |SlotWire(s)|))
  {
    var n := |s.epochLabel|;
    SlotWireLength(s);
    var w := b[cursor..cursor + |SlotWire(s)|];
    assert b[cursor] == w[0] && b[cursor + 17] == w[17];
    assert w[0] == s.index && w[1..17] == s.epochId && w[17] == n && w[18..18 + n] == s.epochLabel;
    assert w[18 + n..1138 + n] == s.enc && w[1138 + n..1186 + n] == s.ciphertext;
    SliceOfSlice(b, cursor, |w|, 1, 17);
    SliceOfSlice(b, cursor, |w|, 18, 18 + n);
    SliceOfSlice(b, cursor, |w|, 18 + n, 1138 + n);
    SliceOfSlice(b, cursor, |w|, 1138 + n, 1186 + n);
  }

  lemma {:induction false} ParsesSlots(b: bytes, cursor: nat, slots: seq<Slot>)
    requires AllTyped(slots) && Labelled(slots) && At(b, cursor, SlotsWire(slots))
    ensures ParseSlots(b, cursor, |slots|) == Ok(SlotsRead(slots, cursor + |SlotsWire(slots)|))
    decreases |slots|
  {
    hide ParseSlot, SlotWire, LabelOk;
    if |slots| > 0 {
      AtConcat(b, cursor, SlotWire(slots[0]), SlotsWire(slots[1..]));
      ParsesSlot(b, cursor, slots[0]);
      ParsesSlots(b, cursor + |SlotWire(slots[0])|, slots[1..]);
      assert slots == [slots[0]] + slots[1..];
    }
  }

  lemma ParsesSerialized(slots: seq<Slot>)
    requires AllTyped(slots) && Valid(slots)
    ensures Parse(Wire(slots)) == Ok(slots)
  {
    hide SlotsWire, ParseSlots, Canonical;
    var w := Wire(slots);
    CanonicalIsLabelled(slots);
    SerializeNeverTooLong(slots);
    assert w[..4] == MAGIC && w[4] == |slots|;
    assert w[5..] == SlotsWire(slots);
    ParsesSlots(w, 5, slots);
  }

  // ----- parse, then serialize

  lemma SlotWasWritten(b: bytes, cursor: nat)
    requires ParseSlot(b, cursor).Ok?
    ensures var r := ParseSlot(b, cursor).value;
      At(b, cursor, SlotWire(r.slot)) && r.cursor == cursor + |SlotWire(r.slot)|
  {
    hide LabelOk;
    var r := ParseSlot(b, cursor).value;
    SlotWireLength(r.slot);
    var n := |r.slot.epochLabel|;
    var e := cursor + 18 + n;
    SixSlices(b, cursor, n, e, e + XWING_CIPHERTEXT_LEN);
  }

  /** The six parts of a slot stand one after another. */
  lemma SixSlices(b: bytes, i: nat, n: nat, e: nat, c: nat)
    requires e == i + 18 + n <= c && c + WRAPPED_DEK_LEN <= |b|
    ensures [b[i]] + b[i + 1..i + 17] + [b[i + 17]] + b[i + 18..e] + b[e..c] + b[c..c + WRAPPED_DEK_LEN]
         == b[i..c + WRAPPED_DEK_LEN]
  {
    assert [b[i]] + b[i + 1..i + 17] == b[i..i + 17];
    assert b[i..i + 17] + [b[i + 17]] == b[i..i + 18];
    Adjacent(b, i, i + 18, e);
    Adjacent(b, i, e, c);
    Adjacent(b, i, c, c + WRAPPED_DEK_LEN);
  }

  lemma {:induction false} SlotsWereWritten(b: bytes, cursor: nat, n: nat)
    requires cursor <= |b| && ParseSlots(b, cursor, n).Ok?
    ensures var r := ParseSlots(b, cursor, n).value;
      At(b, cursor, SlotsWire(r.slots)) && r.cursor == cursor + |SlotsWire(r.slots)|
    decreases n
  {
    hide ParseSlot, SlotWire, LabelOk;
    if n > 0 {
      var first := ParseSlot(b, cursor).value;
      SlotWasWritten(b, cursor);
      SlotsWereWritten(b, first.cursor, n - 1);
      AtConcat(b, cursor, SlotWire(first.slot), SlotsWire(ParseSlots(b, first.cursor, n - 1).value.slots));
    }
  }

  lemma SerializesParsed(b: bytes)
    requires Parse(b).Ok?
    ensures AllTyped(Parse(b).value) && Valid(Parse(b).value) && Serialize(Parse(b).value) == Ok(b)
  {
    hide SlotsWire, ParseSlots, Canonical;
    SlotsWereWritten(b, 5, b[4]);
    var slots := Parse(b).value;
    CanonicalIsLabelled(slots);
    assert b[5..|b|] == SlotsWire(slots);
    assert b == b[..4] + [b[4]] + b[5..|b|];
  }

  // ----- the codec's own shape: a moving cursor, and a growing buffer

  method ParseFrame(b: bytes) returns (r: Outcome<seq<Slot>>)
    ensures r == Parse(b)
  {
    hide ParseSlot, LabelOk, Canonical;
    if !(KEY_FRAME_MIN_LEN <= |b| <= KEY_FRAME_MAX_LEN) {
      return Err(InvalidKeyFrameLength);
    }
    if b[..4] != MAGIC || !(1 <= b[4] <= MAX_SLOTS) {
      return Err(InvalidKeyFrame);
    }
    var count := b[4];
    var cursor: nat := 5;
    var slots: seq<Slot> := [];
    ghost var goal := ParseSlots(b, 5, count);
    assert goal.Ok? ==> [] + goal.value.slots == goal.value.slots;
    for i := 0 to count
      invariant cursor <= |b|
      invariant var rest := ParseSlots(b, cursor, count - i);
        if rest.Err? then goal == Err(rest.error) else goal == Ok(rest.value.(slots := slots + rest.value.slots))
    {
      var slot := TakeSlot(b, cursor);
      if slot.Err? {
        return Err(slot.error);
      }
      ghost var rest := ParseSlots(b, slot.value.cursor, count - i - 1);
      if rest.Ok? {
        assert slots + ([slot.value.slot] + rest.value.slots) == slots + [slot.value.slot] + rest.value.slots;
      }
      slots := slots + [slot.value.slot];
      cursor := slot.value.cursor;
    }
    assert slots + [] == slots;
    if cursor != |b| {
      return Err(InvalidKeyFrame);
    }
    var valid := Validate(slots);
    if !valid {
      return Err(InvalidKeyFrame);
    }
    return Ok(slots);
  }

  /** `take`: the next `len` bytes, or the frame is malformed. */
  function Take(b: bytes, cursor: nat, len: nat): Outcome<bytes> {
    if cursor + len > |b| then Err(InvalidKeyFrame) else Ok(b[cursor..cursor + len])
  }

  method TakeSlot(b: bytes, start: nat) returns (r: Outcome<SlotRead>)
    ensures r == ParseSlot(b, start)
  {
    var cursor := start;
    var index := Take(b, cursor, 1);
    if index.Err? { return Err(index.error); }
    cursor := cursor + 1;
    var epochId := Take(b, cursor, 16);
    if epochId.Err? { return Err(epochId.error); }
    cursor := cursor + 16;
    var length := Take(b, cursor, 1);
    if length.Err? { return Err(length.error); }
    cursor := cursor + 1;
    if length.value[0] > MAX_LABEL { return Err(InvalidKeyFrame); }
    var epochLabel := Take(b, cursor, length.value[0]);
    if epochLabel.Err? { return Err(epochLabel.error); }
    cursor := cursor + length.value[0];
    if !LabelOk(epochLabel.value) { return Err(InvalidKeyFrame); }
    var enc := Take(b, cursor, XWING_CIPHERTEXT_LEN);
    if enc.Err? { return Err(enc.error); }
    cursor := cursor + XWING_CIPHERTEXT_LEN;
    var ciphertext := Take(b, cursor, WRAPPED_DEK_LEN);
    if ciphertext.Err? { return Err(ciphertext.error); }
    cursor := cursor + WRAPPED_DEK_LEN;
    return Ok(SlotRead(Slot(index.value[0], epochId.value, epochLabel.value, enc.value, ciphertext.value), cursor));
  }

  /** `validate`: one pass carrying the previous slot index. */
  method Validate(slots: seq<Slot>) returns (ok: bool)
    ensures ok <==> Valid(slots)
  {
    hide LabelOk;
    if !(1 <= |slots| <= MAX_SLOTS) {
      return false;
    }
    var previous: Option<byte> := None;
    for i := 0 to |slots|
      invariant previous == if i == 0 then None else Some(slots[i - 1].index)
      invariant forall j :: 1 <= j < i ==> slots[j - 1].index < slots[j].index
      invariant forall j :: 0 <= j < i ==> !EpochSeen(slots[..j], slots[j].epochId) && LabelOk(slots[j].epochLabel)
    {
      var slot := slots[i];
      if previous.Some? && slot.index <= previous.value {
        return false;
      }
      if EpochSeen(slots[..i], slot.epochId) || !LabelOk(slot.epochLabel) {
        return false;
      }
      previous := Some(slot.index);
    }
    return true;
  }

  /** `serialize`: validates, then appends slot by slot. */
  method SerializeFrame(slots: seq<Slot>) returns (r: Outcome<bytes>)
    requires AllTyped(slots)
    ensures r == Serialize(slots)
  {
    hide LabelOk, SlotWire, Canonical;
    var valid := Validate(slots);
    if !valid {
      return Err(InvalidKeyFrame);
    }
    CanonicalIsLabelled(slots);
    SerializeNeverTooLong(slots);
    var out := MAGIC + [|slots|];
    for i := 0 to |slots|
      invariant out + SlotsWire(slots[i..]) == Wire(slots)
    {
      assert slots[i..][1..] == slots[i + 1..];
      assert out + (SlotWire(slots[i]) + SlotsWire(slots[i + 1..]))
          == out + SlotWire(slots[i]) + SlotsWire(slots[i + 1..]);
      out := out + SlotWire(slots[i]);
    }
    assert out + [] == out;
    return Ok(out);
  }

  lemma CanonicalIsLabelled(slots: seq<Slot>)
    requires Canonical(slots)
    ensures Labelled(slots)
  {
  }
}
