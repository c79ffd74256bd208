/** Object rows of the terminal index: which maps are accepted, and the file each of them names. */
module TerminalObjects {
  import opened Bits
  import opened Outcomes
  import opened ByteStrings
  import opened Envelope
  import opened Cbor
  import opened PythonCbor
  import opened TerminalRows
  import S = TerminalSlots

  // ----- the checker

  /** "plaintext" */
  const PLAINTEXT: bytes := [112, 108, 97, 105, 110, 116, 101, 120, 116]
  /** "encrypted" */
  const ENCRYPTED: bytes := [101, 110, 99, 114, 121, 112, 116, 101, 100]

  function Field(es: seq<Entry>, key: nat): Option<Item> {
    if |es| == 0 then None else if es[0].key == Unsigned(key) then Some(es[0].value) else Field(es[1..], key)
  }

  predicate Has(es: seq<Entry>, keys: seq<nat>) {
    forall i :: 0 <= i < |keys| ==> Field(es, keys[i]).Some?
  }

  predicate Lacks(es: seq<Entry>, keys: seq<nat>) {
    forall i :: 0 <= i < |keys| ==> Field(es, keys[i]).None?
  }

  /** The required and the forbidden keys of each representation. */
  predicate PlaintextKeys(es: seq<Entry>) {
    Has(es, [1, 2, 3, 4, 10, 11, 12, 13]) && Lacks(es, [21, 22, 23])
  }

  predicate EncryptedKeys(es: seq<Entry>) {
    Has(es, [1, 2, 3, 4, 21, 22, 23]) && Lacks(es, [10, 11, 12, 13])
  }

  predicate ObjectIdOk(v: Item) {
    v.Bytes? && 1 <= |v.b| <= 64 && 0 !in v.b
  }

  predicate ManifestOk(es: seq<Entry>, stored: nat, blockSize: nat)
    requires Has(es, [1, 2, 3, 4, 10, 11, 12, 13])
  {
    var keys := [1, 2, 3, 4, 10, 11, 12, 13];
    assert Field(es, keys[4]).Some? && Field(es, keys[5]).Some? && Field(es, keys[6]).Some? && Field(es, keys[7]).Some?;
    var first, size := Field(es, 10).value, Field(es, 11).value;
    var count, digest := Field(es, 12).value, Field(es, 13).value;
    && first.Unsigned? && size.Unsigned? && count.Unsigned? && size.n > 0 && count.n > 0
    && first.n + count.n < U64_LIMIT && first.n + count.n <= stored
    && count.n * blockSize < U64_LIMIT && size.n <= count.n * blockSize
    && digest.Bytes? && |digest.b| == 32
  }

  predicate RecipientsOk(v: Item) {
    && v.Array? && 1 <= |v.items| <= 8
    && (forall i :: 0 <= i < |v.items| ==> v.items[i].Bytes? && |v.items[i].b| == 16 && !AllZero(v.items[i].b))
    && (forall i, j :: 0 <= i < j < |v.items| ==> v.items[i] != v.items[j])
  }

  predicate EnvelopeOk(es: seq<Entry>)
    requires Has(es, [1, 2, 3, 4, 21, 22, 23])
  {
    var keys := [1, 2, 3, 4, 21, 22, 23];
    assert Field(es, keys[4]).Some? && Field(es, keys[5]).Some? && Field(es, keys[6]).Some?;
    var metadata, recipients, keyLen := Field(es, 21).value, Field(es, 22).value, Field(es, 23).value;
    && metadata.Unsigned? && METADATA_FRAME_MIN_LEN <= metadata.n <= METADATA_FRAME_MAX_LEN
    && RecipientsOk(recipients)
    && keyLen.Unsigned? && KEY_FRAME_MIN_LEN <= keyLen.n <= KEY_FRAME_MAX_LEN
  }

  /** The tape file and stored blocks an Object row names, if the row meets its schema. */
  function ObjectFields(v: Item, blockSize: nat): (r: Option<Locator>)
    ensures r.Some? ==> v.Map?
  {
    if !v.Map? then None
    else
      var es := v.entries;
      var plaintext := Field(es, 2) == Some(Text(PLAINTEXT));
      if !plaintext && Field(es, 2) != Some(Text(ENCRYPTED)) then None
      else if plaintext && !PlaintextKeys(es) then None
      else if !plaintext && !EncryptedKeys(es) then None
      else
        var tapeFile, stored, id := Field(es, 1), Field(es, 3), Field(es, 4);
        if !(tapeFile.Some? && tapeFile.value.Unsigned?) then None
        else if !(stored.Some? && stored.value.Unsigned? && stored.value.n > 0) then None
        else if !(id.Some? && ObjectIdOk(id.value)) then None
        else if plaintext && !ManifestOk(es, stored.value.n, blockSize) then None
        else if !plaintext && !EnvelopeOk(es) then None
        else Some(Locator(tapeFile.value.n, stored.value.n))
  }

  // ----- what it accepts

  /** The map holds this value under this key. */
  ghost predicate Gives(es: seq<Entry>, key: nat, v: Item) {
    Entry(Unsigned(key), v) in es
  }

  ghost predicate Omits(es: seq<Entry>, key: nat) {
    forall e :: e in es ==> e.key != Unsigned(key)
  }

  datatype Manifest = Manifest(first: nat, size: nat, count: nat, digest: bytes)

  /** The tape file, the blocks stored there, the identifier and the representation of an Object. */
  ghost predicate Common(es: seq<Entry>, representation: bytes, id: bytes, l: Locator) {
    && Gives(es, 1, Unsigned(l.file)) && Gives(es, 2, Text(representation)) && Gives(es, 3, Unsigned(l.blocks))
    && Gives(es, 4, Bytes(id))
    && 0 < l.blocks && 1 <= |id| <= 64 && 0 !in id
  }

  /** A plaintext Object also says where in its blocks the manifest lies. */
  ghost predicate PlaintextRow(es: seq<Entry>, id: bytes, m: Manifest, l: Locator, blockSize: nat) {
    && Common(es, Ascii("plaintext"), id, l)
    && Gives(es, 10, Unsigned(m.first)) && Gives(es, 11, Unsigned(m.size)) && Gives(es, 12, Unsigned(m.count))
    && Gives(es, 13, Bytes(m.digest))
    && Omits(es, 21) && Omits(es, 22) && Omits(es, 23)
    && m.first + m.count <= l.blocks && 0 < m.count
    && 0 < m.size <= m.count * blockSize < U64_LIMIT && |m.digest| == 32
  }

  datatype Sealed = Sealed(metadataLen: nat, epochs: seq<Item>, keyFrameLen: nat)

  /** An epoch identifier: 16 bytes, not all of them zero. */
  ghost predicate Epoch(v: Item) {
    v.Bytes? && |v.b| == 16 && exists j :: 0 <= j < 16 && v.b[j] != 0
  }

  /** One to eight different epoch identifiers. */
  ghost predicate Epochs(epochs: seq<Item>) {
    && 1 <= |epochs| <= 8
    && (forall i :: 0 <= i < |epochs| ==> Epoch(epochs[i]))
    && (forall i, j :: 0 <= i < j < |epochs| ==> epochs[i] != epochs[j])
  }

  /** An encrypted Object names the frames and the recipient epochs of its envelope. */
  ghost predicate EncryptedRow(es: seq<Entry>, id: bytes, s: Sealed, l: Locator) {
    && Common(es, Ascii("encrypted"), id, l)
    && Gives(es, 21, Unsigned(s.metadataLen)) && Gives(es, 22, Array(s.epochs))
    && Gives(es, 23, Unsigned(s.keyFrameLen))
    && Omits(es, 10) && Omits(es, 11) && Omits(es, 12) && Omits(es, 13)
    && 17 <= s.metadataLen <= 16777216 && 1191 <= s.keyFrameLen <= 16384 && Epochs(s.epochs)
  }

  /** The value is an Object row of the file `l`. */
  ghost predicate ObjectRow(v: Item, l: Locator, blockSize: nat) {
    && v.Map?
    && (|| (exists id, m :: PlaintextRow(v.entries, id, m, l, blockSize))
        || (exists id, s :: EncryptedRow(v.entries, id, s, l)))
  }

  // ----- a field is the member with its key

  ghost predicate KeysDistinct(es: seq<Entry>) {
    forall i, j :: 0 <= i < j < |es| ==> es[i].key != es[j].key
  }

  lemma {:induction false} AdmittedIsSorted(p: Profile, depth: nat, es: seq<Entry>, earlier: seq<Item>)
    requires !p.keys.Unordered? && AdmitsEntries(p, depth, es, earlier)
    ensures StrictlySorted(p.shorterFirst, es)
    decreases |es|
  {
    hide Print, Admits, KeyOrder, KeyAllowed;
    if |es| > 0 {
      AdmittedIsSorted(p, depth, es[1..], earlier + [es[0].key]);
    }
  }

  lemma AdmittedIsDistinct(p: Profile, depth: nat, es: seq<Entry>)
    requires !p.keys.Unordered? && AdmitsEntries(p, depth, es, [])
    ensures KeysDistinct(es)
  {
    hide Print, Admits, AdmitsEntries, KeyOrder, StrictlySorted;
    AdmittedIsSorted(p, depth, es, []);
    forall i, j | 0 <= i < j < |es| ensures es[i].key != es[j].key {
      SortedPairwise(p.shorterFirst, es, i, j);
      OrderTrichotomy(p.shorterFirst, Print(es[i].key), Print(es[j].key));
    }
  }

  lemma {:induction false} FieldIsMember(es: seq<Entry>, key: nat)
    requires KeysDistinct(es)
    ensures forall v :: Field(es, key) == Some(v) <==> Gives(es, key, v)
    ensures Field(es, key).None? <==> Omits(es, key)
    decreases |es|
  {
    if |es| > 0 {
      FieldIsMember(es[1..], key);
      assert es == [es[0]] + es[1..];
    }
  }

  lemma Spelling()
    ensures PLAINTEXT == Ascii("plaintext") && ENCRYPTED == Ascii("encrypted") && PLAINTEXT != ENCRYPTED
  {
    assert PLAINTEXT[0] != ENCRYPTED[0];
  }

  lemma FieldsAreMembers(es: seq<Entry>)
    requires KeysDistinct(es)
    ensures forall key: nat, v :: Field(es, key) == Some(v) <==> Gives(es, key, v)
    ensures forall key: nat :: Field(es, key).None? <==> Omits(es, key)
  {
    forall key: nat
      ensures forall v :: Field(es, key) == Some(v) <==> Gives(es, key, v)
      ensures Field(es, key).None? <==> Omits(es, key)
    {
      FieldIsMember(es, key);
    }
  }

  lemma PlaintextKeysAre(es: seq<Entry>)
    ensures PlaintextKeys(es) <==>
      && Field(es, 1).Some? && Field(es, 2).Some? && Field(es, 3).Some? && Field(es, 4).Some?
      && Field(es, 10).Some? && Field(es, 11).Some? && Field(es, 12).Some? && Field(es, 13).Some?
      && Field(es, 21).None? && Field(es, 22).None? && Field(es, 23).None?
  {
    hide Field;
    var keys, others := [1, 2, 3, 4, 10, 11, 12, 13], [21, 22, 23];
    if PlaintextKeys(es) {
      assert Field(es, keys[0]).Some? && Field(es, keys[1]).Some? && Field(es, keys[2]).Some?;
      assert Field(es, keys[3]).Some? && Field(es, keys[4]).Some? && Field(es, keys[5]).Some?;
      assert Field(es, keys[6]).Some? && Field(es, keys[7]).Some?;
      assert Field(es, others[0]).None? && Field(es, others[1]).None? && Field(es, others[2]).None?;
    }
  }

  lemma EncryptedKeysAre(es: seq<Entry>)
    ensures EncryptedKeys(es) <==>
      && Field(es, 1).Some? && Field(es, 2).Some? && Field(es, 3).Some? && Field(es, 4).Some?
      && Field(es, 21).Some? && Field(es, 22).Some? && Field(es, 23).Some?
      && Field(es, 10).None? && Field(es, 11).None? && Field(es, 12).None? && Field(es, 13).None?
  {
    hide Field;
    var keys, others := [1, 2, 3, 4, 21, 22, 23], [10, 11, 12, 13];
    if EncryptedKeys(es) {
      assert Field(es, keys[0]).Some? && Field(es, keys[1]).Some? && Field(es, keys[2]).Some?;
      assert Field(es, keys[3]).Some? && Field(es, keys[4]).Some? && Field(es, keys[5]).Some?;
      assert Field(es, keys[6]).Some?;
      assert Field(es, others[0]).None? && Field(es, others[1]).None? && Field(es, others[2]).None?;
      assert Field(es, others[3]).None?;
    }
  }

  lemma EpochIs(v: Item)
    ensures Epoch(v) <==> v.Bytes? && |v.b| == 16 && !AllZero(v.b)
  {
  }

  lemma RecipientsAre(v: Item)
    ensures RecipientsOk(v) <==> v.Array? && Epochs(v.items)
  {
    hide Epoch, AllZero;
    if v.Array? {
      forall i | 0 <= i < |v.items| {
        EpochIs(v.items[i]);
      }
      if RecipientsOk(v) {
        assert Epochs(v.items);
      }
      if Epochs(v.items) {
        assert RecipientsOk(v);
      }
    }
  }

  /** An accepted row is an Object row of the file it names. */
  lemma AcceptedIsRow(v: Item, blockSize: nat, l: Locator)
    requires v.Map? && KeysDistinct(v.entries) && ObjectFields(v, blockSize) == Some(l)
    ensures ObjectRow(v, l, blockSize)
  {
    hide Field, Has, Lacks, KeysDistinct, PLAINTEXT, ENCRYPTED, Ascii, Gives, Omits, RecipientsOk, Epochs;
    var es := v.entries;
    FieldsAreMembers(es);
    Spelling();
    var id := Field(es, 4).value.b;
    if Field(es, 2) == Some(Text(PLAINTEXT)) {
      PlaintextKeysAre(es);
      var m := Manifest(Field(es, 10).value.n, Field(es, 11).value.n, Field(es, 12).value.n, Field(es, 13).value.b);
      assert PlaintextRow(es, id, m, l, blockSize);
    } else {
      EncryptedKeysAre(es);
      RecipientsAre(Field(es, 22).value);
      var s := Sealed(Field(es, 21).value.n, Field(es, 22).value.items, Field(es, 23).value.n);
      assert EncryptedRow(es, id, s, l);
    }
  }

  lemma PlaintextIsAccepted(v: Item, blockSize: nat, l: Locator, id: bytes, m: Manifest)
    requires v.Map? && KeysDistinct(v.entries) && l.blocks < U64_LIMIT
    requires PlaintextRow(v.entries, id, m, l, blockSize)
    ensures ObjectFields(v, blockSize) == Some(l)
  {
    hide Field, Has, Lacks, KeysDistinct, PLAINTEXT, ENCRYPTED, Ascii, Gives, Omits;
    FieldsAreMembers(v.entries);
    Spelling();
    PlaintextKeysAre(v.entries);
  }

  lemma EncryptedIsAccepted(v: Item, blockSize: nat, l: Locator, id: bytes, s: Sealed)
    requires v.Map? && KeysDistinct(v.entries) && EncryptedRow(v.entries, id, s, l)
    ensures ObjectFields(v, blockSize) == Some(l)
  {
    hide Field, Has, Lacks, KeysDistinct, PLAINTEXT, ENCRYPTED, Ascii, Gives, Omits, RecipientsOk, Epochs;
    FieldsAreMembers(v.entries);
    Spelling();
    EncryptedKeysAre(v.entries);
    RecipientsAre(Array(s.epochs));
  }

  lemma {:induction false} MemberAdmitted(p: Profile, depth: nat, es: seq<Entry>, earlier: seq<Item>, e: Entry)
    requires AdmitsEntries(p, depth, es, earlier) && e in es
    ensures AdmitsEntry(p, depth, e)
    decreases |es|
  {
    hide Print, AdmitsEntry, KeyFits;
    if e != es[0] {
      MemberAdmitted(p, depth, es[1..], earlier + [es[0].key], e);
    }
  }

  lemma BlocksFit(es: seq<Entry>, representation: bytes, id: bytes, l: Locator)
    requires AdmitsEntries(S.PROFILE, 1, es, []) && Common(es, representation, id, l)
    ensures l.blocks < U64_LIMIT
  {
    hide Print, AdmitsEntries;
    MemberAdmitted(S.PROFILE, 1, es, [], Entry(Unsigned(3), Unsigned(l.blocks)));
  }

  /** Exactly the Object rows are accepted, each for the file it names. */
  lemma AcceptsExactlyRows(v: Item, blockSize: nat, l: Locator)
    requires Admits(S.PROFILE, 0, v)
    ensures ObjectFields(v, blockSize) == Some(l) <==> ObjectRow(v, l, blockSize)
  {
    hide ObjectFields, EncryptedRow, Print, Common, Gives, Omits, Ascii;
    if v.Map? {
      AdmittedIsDistinct(S.PROFILE, 1, v.entries);
      if ObjectFields(v, blockSize) == Some(l) {
        AcceptedIsRow(v, blockSize, l);
      }
      if id, m :| PlaintextRow(v.entries, id, m, l, blockSize) {
        BlocksFit(v.entries, Ascii("plaintext"), id, l);
        PlaintextIsAccepted(v, blockSize, l, id, m);
      } else if id, s :| EncryptedRow(v.entries, id, s, l) {
        EncryptedIsAccepted(v, blockSize, l, id, s);
      }
    }
  }
}
