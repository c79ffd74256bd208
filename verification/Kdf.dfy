/** Key derivation: the deterministic nonzero salt and the three object keys. */
module Kdf {
  import opened Bits
  import opened Outcomes
  import opened ByteStrings
  import opened Envelope

  /** "rem-encrypt-salt-v1" */
  const LABEL_SALT: bytes := [114, 101, 109, 45, 101, 110, 99, 114, 121, 112, 116, 45, 115, 97, 108, 116, 45, 118, 49]
  /** "rem-encrypt-object-v1" */
  const LABEL_OBJECT: bytes := [
    114, 101, 109, 45, 101, 110, 99, 114, 121, 112, 116, 45, 111, 98, 106, 101, 99, 116, 45, 118, 49]
  /** "rem-encrypt-metadata-v1" */
  const LABEL_METADATA: bytes := [
    114, 101, 109, 45, 101, 110, 99, 114, 121, 112, 116, 45, 109, 101, 116, 97, 100, 97, 116, 97, 45, 118, 49]
  /** "rem-encrypt-payload-v1" */
  const LABEL_PAYLOAD: bytes := [
    114, 101, 109, 45, 101, 110, 99, 114, 121, 112, 116, 45, 112, 97, 121, 108, 111, 97, 100, 45, 118, 49]

  const SALT_LEN: nat := 16
  const KEY_LEN: nat := 32

  datatype Keys = Keys(objectSecret: bytes, metadataKey: bytes, payloadKey: bytes)

  /** What the salt is bound to: the object id, the plaintext digest and the metadata. */
  datatype Binding = Binding(idField: bytes, digest: bytes, metadata: bytes)

  /** The HKDF info of a salt candidate. */
  function SaltInfo(c: Primitives, b: Binding, ctr: byte): bytes {
    LABEL_SALT + [ctr] + b.idField + b.digest + c.sha256(b.metadata)
  }

  function SaltAt(c: Primitives, dek: bytes, b: Binding, ctr: byte): bytes {
    c.hkdf([], dek, SaltInfo(c, b, ctr), SALT_LEN)
  }

  lemma SaltLabel()
    ensures LABEL_SALT == Ascii("rem-encrypt-salt-v1")
  {
  }

  lemma ObjectLabel()
    ensures LABEL_OBJECT == Ascii("rem-encrypt-object-v1")
  {
  }

  lemma MetadataLabel()
    ensures LABEL_METADATA == Ascii("rem-encrypt-metadata-v1")
  {
  }

  lemma PayloadLabel()
    ensures LABEL_PAYLOAD == Ascii("rem-encrypt-payload-v1")
  {
  }

  /** The label, the counter, the object id, the plaintext digest and the hash of the metadata, at their offsets. */
  lemma SaltInfoLayout(c: Primitives, dek: bytes, b: Binding, ctr: byte)
    requires Lawful(c) && |b.idField| == 64 && |b.digest| == 32
    ensures
      var info := SaltInfo(c, b, ctr);
      && SaltAt(c, dek, b, ctr) == c.hkdf([], dek, info, 16)
      && |info| == 148 && info[..19] == Ascii("rem-encrypt-salt-v1") && info[19] == ctr
      && info[20..84] == b.idField && info[84..116] == b.digest && info[116..] == c.sha256(b.metadata)
  {
    SaltLabel();
  }

  /** The salt binds what it is derived for: equal infos have equal counters, ids, digests and metadata hashes. */
  lemma SaltInfoBinds(c: Primitives, b: Binding, ctr: byte, b': Binding, ctr': byte)
    requires Lawful(c) && |b.idField| == |b'.idField| == 64 && |b.digest| == |b'.digest| == 32
    requires SaltInfo(c, b, ctr) == SaltInfo(c, b', ctr')
    ensures ctr == ctr' && b.idField == b'.idField && b.digest == b'.digest
    ensures c.sha256(b.metadata) == c.sha256(b'.metadata)
  {
    hide SaltInfo, SaltAt;
    SaltInfoLayout(c, [], b, ctr);
    SaltInfoLayout(c, [], b', ctr');
  }

  /** The first candidate from counter `ctr` on that is not all zero. */
  function SaltFrom(c: Primitives, dek: bytes, b: Binding, ctr: nat): Outcome<bytes>
    requires ctr <= U8_LIMIT
    decreases U8_LIMIT - ctr
  {
    if ctr == U8_LIMIT then Err(InvalidSalt)
    else if !AllZero(SaltAt(c, dek, b, ctr)) then Ok(SaltAt(c, dek, b, ctr))
    else SaltFrom(c, dek, b, ctr + 1)
  }

  /** The salt of an object: never all zero, so the header always accepts it. */
  function Salt(c: Primitives, dek: bytes, b: Binding): Outcome<bytes> {
    SaltFrom(c, dek, b, 0)
  }

  lemma {:induction false} SaltIsNonzero(c: Primitives, dek: bytes, b: Binding, ctr: nat)
    requires Lawful(c) && ctr <= U8_LIMIT
    ensures SaltFrom(c, dek, b, ctr).Ok? ==>
      |SaltFrom(c, dek, b, ctr).value| == SALT_LEN && !AllZero(SaltFrom(c, dek, b, ctr).value)
    decreases U8_LIMIT - ctr
  {
    if ctr < U8_LIMIT {
      SaltIsNonzero(c, dek, b, ctr + 1);
    }
  }

  ghost predicate FirstNonzero(c: Primitives, dek: bytes, b: Binding, i: byte) {
    !AllZero(SaltAt(c, dek, b, i)) && forall j: byte :: j < i ==> AllZero(SaltAt(c, dek, b, j))
  }

  /** `derive_salt_bytes`: tries counters 0 to 255 in turn. */
  method DeriveSalt(c: Primitives, dek: bytes, b: Binding) returns (r: Outcome<bytes>)
    ensures r == Salt(c, dek, b)
    ensures r.Err? <==> forall i: byte :: AllZero(SaltAt(c, dek, b, i))
    ensures r.Ok? ==> exists i: byte :: FirstNonzero(c, dek, b, i) && r.value == SaltAt(c, dek, b, i)
  {
    hide SaltAt;
    var ctr: nat := 0;
    while ctr < U8_LIMIT
      invariant 0 <= ctr <= U8_LIMIT
      invariant forall i: byte :: i < ctr ==> AllZero(SaltAt(c, dek, b, i))
      invariant SaltFrom(c, dek, b, ctr) == Salt(c, dek, b)
    {
      var salt := SaltAt(c, dek, b, ctr);
      if !AllZero(salt) {
        assert FirstNonzero(c, dek, b, ctr);
        return Ok(salt);
      }
      ctr := ctr + 1;
    }
    return Err(InvalidSalt);
  }

  function DeriveKeys(c: Primitives, dek: bytes, salt: bytes, headerHash: bytes): Keys {
    var secret := c.hkdf(salt, dek, LABEL_OBJECT + headerHash, KEY_LEN);
    Keys(secret, c.hkdf([], secret, LABEL_METADATA, KEY_LEN), c.hkdf([], secret, LABEL_PAYLOAD, KEY_LEN))
  }

  /**
   The object secret is bound to the DEK, the salt and the hash of header and key frame; metadata and payload keys are
   expanded from it under different labels.
   */
  lemma KeySchedule(c: Primitives, dek: bytes, salt: bytes, headerHash: bytes)
    ensures
      var keys := DeriveKeys(c, dek, salt, headerHash);
      && keys.objectSecret == c.hkdf(salt, dek, Ascii("rem-encrypt-object-v1") + headerHash, 32)
      && keys.metadataKey == c.hkdf([], keys.objectSecret, Ascii("rem-encrypt-metadata-v1"), 32)
      && keys.payloadKey == c.hkdf([], keys.objectSecret, Ascii("rem-encrypt-payload-v1"), 32)
  {
    ObjectLabel();
    MetadataLabel();
    PayloadLabel();
  }
}
