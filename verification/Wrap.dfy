/** Wrapping the data-encryption key to recipients, and unwrapping it with a recipient's private key. */
module Wrap {
  import opened Bits
  import opened Outcomes
  import opened ByteStrings
  import opened Envelope
  import opened Kdf
  import H = EnvelopeHeader
  import K = KeyFrame

  /** "rem-encrypt-wrap-v1" and a NUL. */
  const WRAP_INFO_PREFIX: bytes := [
    114, 101, 109, 45, 101, 110, 99, 114, 121, 112, 116, 45, 119, 114, 97, 112, 45, 118, 49, 0]
  const WRAP_INFO_LEN: nat := 103

  datatype PublicKey = PublicKey(index: byte, epochId: bytes, epochLabel: bytes, key: bytes)

  datatype PrivateKey = PrivateKey(epochId: bytes, key: bytes)

  /** `key` belongs to recipient `r`. */
  ghost predicate Belongs(c: Primitives, key: PrivateKey, r: PublicKey) {
    key.epochId == r.epochId && c.publicKey(key.key) == r.key
  }

  /** The HPKE info transcript: prefix, object id, epoch, slot index, and two suite bytes. */
  function WrapInfo(idField: bytes, epochId: bytes, index: byte): (info: bytes)
    requires |idField| == 64 && |epochId| == 16
    ensures |info| == WRAP_INFO_LEN
  {
    WRAP_INFO_PREFIX + idField + epochId + [index] + [1] + [2]
  }

  /** The transcript, offset by offset. */
  lemma WrapInfoLayout(idField: bytes, epochId: bytes, index: byte)
    requires |idField| == 64 && |epochId| == 16
    ensures
      var info := WrapInfo(idField, epochId, index);
      && |info| == 103 && info[..19] == Ascii("rem-encrypt-wrap-v1") && info[19] == 0
      && info[20..84] == idField && info[84..100] == epochId && info[100] == index && info[101] == 1 && info[102] == 2
  {
    assert WRAP_INFO_PREFIX == Ascii("rem-encrypt-wrap-v1") + [0];
  }

  /** `wrap_info`: fills the fixed buffer field by field. */
  method FillWrapInfo(idField: bytes, epochId: bytes, index: byte) returns (info: bytes)
    requires |idField| == 64 && |epochId| == 16
    ensures info == WrapInfo(idField, epochId, index)
  {
    var b := new byte[WRAP_INFO_LEN](_ => 0);
    H.CopyInto(b, 0, WRAP_INFO_PREFIX);
    H.CopyInto(b, 20, idField);
    H.CopyInto(b, 84, epochId);
    b[100] := index;
    b[101] := 1;
    b[102] := 2;
    info := b[..];
    assert info == info[..20] + info[20..84] + info[84..100] + [info[100]] + [info[101]] + [info[102]];
  }

  /** The transcript binds the object, the epoch and the slot: different ones never share it. */
  lemma WrapInfoBinds(id: bytes, epoch: bytes, index: byte, id': bytes, epoch': bytes, index': byte)
    requires |id| == |id'| == 64 && |epoch| == |epoch'| == 16
    requires WrapInfo(id, epoch, index) == WrapInfo(id', epoch', index')
    ensures id == id' && epoch == epoch' && index == index'
  {
    var a, b := WrapInfo(id, epoch, index), WrapInfo(id', epoch', index');
    assert a[20..84] == id && b[20..84] == id';
    assert a[84..100] == epoch && b[84..100] == epoch';
    assert a[100] == index && b[100] == index';
  }

  function WrapRecipient(c: Primitives, dek: bytes, idField: bytes, r: PublicKey, random: bytes): Outcome<K.Slot>
    requires |idField| == 64 && |r.epochId| == 16
  {
    if !K.LabelOk(r.epochLabel) then Err(InvalidKeyFrame)
    else
      var sealed := c.hpkeSeal(r.key, WrapInfo(idField, r.epochId, r.index), dek, random);
      if sealed.None? then Err(HpkeFailed)
      else Ok(K.Slot(r.index, r.epochId, r.epochLabel, sealed.value.0, sealed.value.1))
  }

  predicate Typed(rs: seq<PublicKey>) {
    forall i :: 0 <= i < |rs| ==> |rs[i].epochId| == 16
  }

  /** One slot per recipient, the i-th drawing `rng(i)`; the first failure ends it. */
  function WrapSlots(c: Primitives, dek: bytes, idField: bytes, rs: seq<PublicKey>, rng: nat -> bytes)
    : Outcome<seq<K.Slot>>
    requires |idField| == 64 && Typed(rs)
  {
    if |rs| == 0 then Ok([])
    else
      var n := |rs| - 1;
      var before := WrapSlots(c, dek, idField, rs[..n], rng);
      if before.Err? then before
      else
        var last := WrapRecipient(c, dek, idField, rs[n], rng(n));
        if last.Err? then Err(last.error) else Ok(before.value + [last.value])
  }

  function WrapDek(c: Primitives, dek: bytes, idField: bytes, rs: seq<PublicKey>, rng: nat -> bytes)
    : Outcome<seq<K.Slot>>
    requires |idField| == 64 && Typed(rs)
  {
    var slots := WrapSlots(c, dek, idField, rs, rng);
    if slots.Err? then slots else if !K.Valid(slots.value) then Err(InvalidKeyFrame) else slots
  }

  method WrapToAll(c: Primitives, dek: bytes, idField: bytes, rs: seq<PublicKey>, rng: nat -> bytes)
    returns (r: Outcome<seq<K.Slot>>)
    requires |idField| == 64 && Typed(rs)
    ensures r == WrapDek(c, dek, idField, rs, rng)
  {
    hide WrapRecipient;
    var slots := [];
    for i := 0 to |rs|
      invariant WrapSlots(c, dek, idField, rs[..i], rng) == Ok(slots)
    {
      assert rs[..i + 1][..i] == rs[..i];
      var slot := WrapRecipient(c, dek, idField, rs[i], rng(i));
      if slot.Err? {
        WrapStops(c, dek, idField, rs, rng, i + 1);
        return Err(slot.error);
      }
      slots := slots + [slot.value];
    }
    assert rs[..|rs|] == rs;
    return if K.Valid(slots) then Ok(slots) else Err(InvalidKeyFrame);
  }

  lemma {:induction false} WrapStops(c: Primitives, dek: bytes, idField: bytes, rs: seq<PublicKey>,
      rng: nat -> bytes, i: nat)
    requires |idField| == 64 && Typed(rs) && i <= |rs| && WrapSlots(c, dek, idField, rs[..i], rng).Err?
    ensures WrapSlots(c, dek, idField, rs, rng) == WrapSlots(c, dek, idField, rs[..i], rng)
    decreases |rs|
  {
    hide WrapRecipient;
    if i == |rs| {
      assert rs[..i] == rs;
    } else {
      assert rs[..|rs| - 1][..i] == rs[..i];
      WrapStops(c, dek, idField, rs[..|rs| - 1], rng, i);
    }
  }

  /** The slot at each position is that recipient's. */
  lemma {:induction false} SlotOf(c: Primitives, dek: bytes, idField: bytes, rs: seq<PublicKey>, rng: nat -> bytes,
      i: nat)
    requires |idField| == 64 && Typed(rs) && i < |rs| && WrapSlots(c, dek, idField, rs, rng).Ok?
    ensures var slots := WrapSlots(c, dek, idField, rs, rng).value;
      |slots| == |rs| && WrapRecipient(c, dek, idField, rs[i], rng(i)) == Ok(slots[i])
    decreases |rs|
  {
    hide WrapRecipient;
    var n := |rs| - 1;
    if n > 0 {
      SlotOf(c, dek, idField, rs[..n], rng, if i < n then i else 0);
    }
  }

  lemma WrappedIsTyped(c: Primitives, dek: bytes, idField: bytes, rs: seq<PublicKey>, rng: nat -> bytes)
    requires Lawful(c) && |dek| == KEY_LEN && |idField| == 64 && Typed(rs) && WrapSlots(c, dek, idField, rs, rng).Ok?
    ensures K.AllTyped(WrapSlots(c, dek, idField, rs, rng).value)
  {
    var slots := WrapSlots(c, dek, idField, rs, rng).value;
    if |rs| > 0 {
      SlotOf(c, dek, idField, rs, rng, 0);
    }
    forall i | 0 <= i < |slots|
      ensures K.Typed(slots[i])
    {
      SlotOf(c, dek, idField, rs, rng, i);
    }
  }

  /** The position of the first slot of an epoch, or the number of slots. */
  function FindEpoch(slots: seq<K.Slot>, epochId: bytes): (n: nat)
    ensures n <= |slots| && (n < |slots| ==> slots[n].epochId == epochId)
    ensures forall i :: 0 <= i < n ==> slots[i].epochId != epochId
  {
    if |slots| == 0 || slots[0].epochId == epochId then 0 else 1 + FindEpoch(slots[1..], epochId)
  }

  function UnwrapDek(c: Primitives, slots: seq<K.Slot>, idField: bytes, key: PrivateKey): (r: Outcome<bytes>)
    requires |idField| == 64 && K.AllTyped(slots)
    ensures r.Ok? ==> |r.value| == KEY_LEN
    ensures r == Err(RecipientEpochMismatch) <==> forall i :: 0 <= i < |slots| ==> slots[i].epochId != key.epochId
  {
    var n := FindEpoch(slots, key.epochId);
    if n == |slots| then Err(RecipientEpochMismatch)
    else
      var s := slots[n];
      var dek := c.hpkeOpen(key.key, s.enc, WrapInfo(idField, s.epochId, s.index), s.ciphertext);
      if dek.None? || |dek.value| != KEY_LEN then Err(HpkeFailed) else Ok(dek.value)
  }

  /** Every recipient the key was wrapped to unwraps that key, whatever the other slots hold. */
  lemma UnwrapsWrapped(c: Primitives, dek: bytes, idField: bytes, rs: seq<PublicKey>, rng: nat -> bytes, i: nat,
      key: PrivateKey)
    requires Lawful(c) && |dek| == KEY_LEN && |idField| == 64 && Typed(rs)
    requires WrapDek(c, dek, idField, rs, rng).Ok? && i < |rs| && Belongs(c, key, rs[i])
    ensures var slots := WrapDek(c, dek, idField, rs, rng).value;
      K.AllTyped(slots) && UnwrapDek(c, slots, idField, key) == Ok(dek)
  {
    hide K.LabelOk, WrapSlots;
    var slots := WrapDek(c, dek, idField, rs, rng).value;
    WrappedIsTyped(c, dek, idField, rs, rng);
    SlotOf(c, dek, idField, rs, rng, i);
    var n := FindEpoch(slots, key.epochId);
    assert n == i;
  }

  /**
   Slot `i` carries the identity of recipient `i` and the DEK encapsulated to that recipient's key, with the object,
   the epoch and the slot index in the HPKE info.
   */
  lemma WrappedForEach(c: Primitives, dek: bytes, idField: bytes, rs: seq<PublicKey>, rng: nat -> bytes, i: nat)
    requires |idField| == 64 && Typed(rs) && WrapDek(c, dek, idField, rs, rng).Ok? && i < |rs|
    ensures
      var slots := WrapDek(c, dek, idField, rs, rng).value;
      && |slots| == |rs|
      && slots[i].index == rs[i].index && slots[i].epochId == rs[i].epochId && slots[i].epochLabel == rs[i].epochLabel
      && c.hpkeSeal(rs[i].key, WrapInfo(idField, rs[i].epochId, rs[i].index), dek, rng(i))
         == Some((slots[i].enc, slots[i].ciphertext))
  {
    hide WrapSlots, K.Valid;
    SlotOf(c, dek, idField, rs, rng, i);
  }

  /** A key unwraps exactly what the first slot of its epoch opens to, under the same info, if that is 32 bytes. */
  lemma UnwrapsIff(c: Primitives, slots: seq<K.Slot>, idField: bytes, key: PrivateKey, dek: bytes)
    requires |idField| == 64 && K.AllTyped(slots)
    ensures UnwrapDek(c, slots, idField, key) == Ok(dek) <==>
      && |dek| == 32
      && exists i :: 0 <= i < |slots| && OpensAt(c, slots, idField, key, dek, i)
  {
    hide WrapInfo;
    var n := FindEpoch(slots, key.epochId);
    if UnwrapDek(c, slots, idField, key) == Ok(dek) {
      assert OpensAt(c, slots, idField, key, dek, n);
    }
    if i :| 0 <= i < |slots| && OpensAt(c, slots, idField, key, dek, i) {
      assert i == n;
    }
  }

  ghost predicate OpensAt(c: Primitives, slots: seq<K.Slot>, idField: bytes, key: PrivateKey, dek: bytes, i: nat)
    requires |idField| == 64 && K.AllTyped(slots) && i < |slots|
  {
    && slots[i].epochId == key.epochId && (forall j :: 0 <= j < i ==> slots[j].epochId != key.epochId)
    && c.hpkeOpen(key.key, slots[i].enc, WrapInfo(idField, slots[i].epochId, slots[i].index), slots[i].ciphertext)
       == Some(dek)
  }
}
