/** Exactly when a seal gets as far as writing. */
module SealConditions {
  import opened Bits
  import opened Outcomes
  import opened ByteStrings
  import opened Envelope
  import opened Kdf
  import opened Seal
  import C = Cbor
  import H = EnvelopeHeader
  import K = KeyFrame
  import M = Metadata
  import W = Wrap

  /** Every recipient's label is printable and its key can be encapsulated to. */
  ghost predicate AllWrap(c: Primitives, dek: bytes, idField: bytes, rs: seq<W.PublicKey>, rng: nat -> bytes)
    requires |idField| == 64 && W.Typed(rs)
  {
    forall i :: 0 <= i < |rs| ==> W.WrapRecipient(c, dek, idField, rs[i], rng(i)).Ok?
  }

  lemma {:induction false} WrapsWhenAllWrap(c: Primitives, dek: bytes, idField: bytes, rs: seq<W.PublicKey>,
      rng: nat -> bytes)
    requires |idField| == 64 && W.Typed(rs)
    ensures W.WrapSlots(c, dek, idField, rs, rng).Ok? <==> AllWrap(c, dek, idField, rs, rng)
    decreases |rs|
  {
    hide W.WrapRecipient;
    if |rs| > 0 {
      var n := |rs| - 1;
      WrapsWhenAllWrap(c, dek, idField, rs[..n], rng);
      assert AllWrap(c, dek, idField, rs, rng) ==> AllWrap(c, dek, idField, rs[..n], rng);
      if W.WrapSlots(c, dek, idField, rs, rng).Ok? {
        forall i | 0 <= i < |rs|
          ensures W.WrapRecipient(c, dek, idField, rs[i], rng(i)).Ok?
        {
          W.SlotOf(c, dek, idField, rs, rng, i);
        }
      }
    }
  }

  /** The slots are canonical exactly when the recipients are few, distinct and in slot order. */
  lemma SlotsAreValid(c: Primitives, dek: bytes, idField: bytes, rs: seq<W.PublicKey>, rng: nat -> bytes)
    requires |idField| == 64 && W.Typed(rs) && W.WrapSlots(c, dek, idField, rs, rng).Ok?
    ensures K.Valid(W.WrapSlots(c, dek, idField, rs, rng).value) <==> 1 <= |rs| <= K.MAX_SLOTS && Ordered(rs)
  {
    hide W.WrapSlots, K.LabelOk;
    var slots := W.WrapSlots(c, dek, idField, rs, rng).value;
    SlotFields(c, dek, idField, rs, rng);
    if Ordered(rs) {
      forall i | 0 <= i < |slots|
        ensures !K.EpochSeen(slots[..i], slots[i].epochId)
      {
      }
    }
    if K.Canonical(slots) {
      forall i, j | 0 <= i < j < |rs|
        ensures rs[i].epochId != rs[j].epochId
      {
        assert slots[..j][i] == slots[i];
        assert !K.EpochSeen(slots[..j], slots[j].epochId);
      }
    }
  }

  lemma SlotFields(c: Primitives, dek: bytes, idField: bytes, rs: seq<W.PublicKey>, rng: nat -> bytes)
    requires |idField| == 64 && W.Typed(rs) && W.WrapSlots(c, dek, idField, rs, rng).Ok?
    ensures var slots := W.WrapSlots(c, dek, idField, rs, rng).value;
      && |slots| == |rs|
      && forall i :: 0 <= i < |rs| ==>
           slots[i].index == rs[i].index && slots[i].epochId == rs[i].epochId && K.LabelOk(slots[i].epochLabel)
  {
    hide K.LabelOk;
    var slots := W.WrapSlots(c, dek, idField, rs, rng).value;
    if |rs| > 0 {
      W.SlotOf(c, dek, idField, rs, rng, 0);
    }
    forall i | 0 <= i < |rs|
      ensures slots[i].index == rs[i].index && slots[i].epochId == rs[i].epochId && K.LabelOk(slots[i].epochLabel)
    {
      W.SlotOf(c, dek, idField, rs, rng, i);
    }
  }

  /** Metadata take at most 128 bytes. */
  lemma MetadataIsShort(m: M.Meta, chunkSize: nat)
    requires M.Typed(m) && M.ToCbor(m, chunkSize).Ok?
    ensures 1 <= |M.ToCbor(m, chunkSize).value| <= 128
  {
    hide C.Head, C.PrintEntries, M.Validate;
    var es := M.Entries(m);
    M.PrintFourEntries(es);
    EntryIsShort(es[0]);
    EntryIsShort(es[1]);
    EntryIsShort(es[2]);
    EntryIsShort(es[3]);
  }

  lemma EntryIsShort(e: C.Entry)
    requires e.key.Unsigned? && e.key.n < 4
    requires e.value.Unsigned? || e.value.Text? || e.value.Bytes?
    requires e.value.Unsigned? ==> e.value.n < U64_LIMIT
    requires e.value.Text? || e.value.Bytes? ==> |e.value.b| <= 32
    ensures |C.PrintEntry(e)| <= 59
  {
    hide C.Head;
  }

  /** What the caller and the primitives must provide for a seal to be prepared. */
  ghost predicate Sealable(c: Primitives, o: Options, dek: bytes, rng: nat -> bytes)
    requires Typed(o)
  {
    var meta := M.Meta(o.plaintextSize, o.digest);
    && M.Validate(meta, o.chunkSize).Ok?
    && H.ObjectIdOk(o.objectId)
    && (if o.allowSingle then 1 else 2) <= |o.recipients| <= K.MAX_SLOTS && Ordered(o.recipients)
    && var id := H.ObjectIdField(o.objectId).value;
    && AllWrap(c, dek, id, o.recipients, rng)
    && Salt(c, dek, Binding(id, o.digest, M.ToCbor(meta, o.chunkSize).value)).Ok?
  }

  /** A seal is prepared exactly under those conditions: no length check and no header check refuses anything more. */
  lemma PrepareSucceedsIff(c: Primitives, o: Options, dek: bytes, rng: nat -> bytes)
    requires Typed(o) && Lawful(c) && |dek| == KEY_LEN
    ensures Prepare(c, o, dek, rng).Ok? <==> Sealable(c, o, dek, rng)
  {
    hide Lawful, W.WrapSlots, K.Valid, SaltFrom, AllWrap, Ordered, Assemble;
    var meta := M.Meta(o.plaintextSize, o.digest);
    if M.Validate(meta, o.chunkSize).Ok? && H.ObjectIdOk(o.objectId) {
      var id := H.ObjectIdField(o.objectId).value;
      WrapsWhenAllWrap(c, dek, id, o.recipients, rng);
      var slots := W.WrapSlots(c, dek, id, o.recipients, rng);
      if slots.Ok? {
        SlotsAreValid(c, dek, id, o.recipients, rng);
        var metadata := M.ToCbor(meta, o.chunkSize).value;
        var salt := Salt(c, dek, Binding(id, o.digest, metadata));
        if salt.Ok? && K.Valid(slots.value) {
          SaltIsNonzero(c, dek, Binding(id, o.digest, metadata), 0);
          W.WrappedIsTyped(c, dek, id, o.recipients, rng);
          AssembleSucceeds(c, o, dek, metadata, salt.value, slots.value);
        }
      }
    }
  }

  lemma AssembleSucceeds(c: Primitives, o: Options, dek: bytes, metadata: bytes, salt: bytes, slots: seq<K.Slot>)
    requires Typed(o) && |salt| == SALT_LEN && !AllZero(salt) && K.AllTyped(slots) && K.Valid(slots)
    requires ValidateChunkSize(o.chunkSize).Ok? && H.ObjectIdOk(o.objectId)
    requires M.ToCbor(M.Meta(o.plaintextSize, o.digest), o.chunkSize) == Ok(metadata)
    ensures Assemble(c, o, dek, metadata, salt, slots).Ok?
  {
    hide K.Wire, K.Valid, K.AllTyped, H.Wire, M.ToCbor, DeriveKeys;
    K.SerializeNeverTooLong(slots);
    MetadataIsShort(M.Meta(o.plaintextSize, o.digest), o.chunkSize);
  }
}
