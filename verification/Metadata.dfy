/** The metadata of an envelope: its deterministic-CBOR schema, writer and strict reader. */
module Metadata {
  import opened Bits
  import opened Outcomes
  import opened ByteStrings
  import opened Utf8
  import opened Cbor
  import opened CborKeyOrder
  import opened Envelope
  import opened Stream

  const MAX_DEPTH: nat := 32
  const MAX_ITEMS: nat := 65536

  /** Bytewise key order, any kind of key, no negative integers. */
  const PROFILE := Profile(Some(MAX_DEPTH), Some(MAX_ITEMS), false, false, AnyKey)

  /** "sha256" */
  const SHA256_NAME: bytes := [115, 104, 97, 50, 53, 54]

  datatype Meta = Meta(plaintextSize: nat, digest: bytes)

  predicate Typed(m: Meta) {
    m.plaintextSize < U64_LIMIT && |m.digest| == 32
  }

  function Validate(m: Meta, chunkSize: nat): Outcome<()> {
    if ValidateChunkSize(chunkSize).Err? then ValidateChunkSize(chunkSize)
    else if m.plaintextSize == 0 || m.plaintextSize % chunkSize != 0 then Err(InvalidMetadataField)
    else
      var tags := CheckedMul(TAG_LEN, m.plaintextSize / chunkSize);
      if tags.None? || CheckedAdd(m.plaintextSize, tags.value).None? then Err(InvalidMetadataField) else Ok(())
  }

  /** Metadata are valid exactly when the payload they announce has a length in 64-bit arithmetic. */
  lemma ValidIffPayloadFits(m: Meta, chunkSize: nat)
    ensures Validate(m, chunkSize).Ok?
       <==> ValidateChunkSize(chunkSize).Ok? && PayloadFrameLen(m.plaintextSize, chunkSize).Ok?
  {
  }

  // ----- writing

  function Entries(m: Meta): seq<Entry> {
    [Entry(Unsigned(0), Unsigned(1)),
     Entry(Unsigned(1), Unsigned(m.plaintextSize)),
     Entry(Unsigned(2), Text(SHA256_NAME)),
     Entry(Unsigned(3), Bytes(m.digest))]
  }

  function ToCbor(m: Meta, chunkSize: nat): Outcome<bytes> {
    var ok := Validate(m, chunkSize);
    if ok.Err? then Err(ok.error) else Ok(Print(Map(Entries(m))))
  }

  /** `to_cbor_bytes`: head by head into one buffer. */
  method WriteCbor(m: Meta, chunkSize: nat) returns (r: Outcome<bytes>)
    ensures r == ToCbor(m, chunkSize)
  {
    hide Head;
    var ok := Validate(m, chunkSize);
    if ok.Err? {
      return Err(ok.error);
    }
    var out := Head(5, 4);
    out := out + Head(0, 0);
    out := out + Head(0, 1);
    out := out + Head(0, 1);
    out := out + Head(0, m.plaintextSize);
    out := out + Head(0, 2);
    out := out + Head(3, |SHA256_NAME|) + SHA256_NAME;
    out := out + Head(0, 3);
    out := out + Head(2, |m.digest|) + m.digest;
    PrintFourEntries(Entries(m));
    assert Print(Text(SHA256_NAME)) == Head(3, |SHA256_NAME|) + SHA256_NAME;
    assert out == Head(5, 4)
      + (Print(Unsigned(0)) + Print(Unsigned(1))) + (Print(Unsigned(1)) + Print(Unsigned(m.plaintextSize)))
      + (Print(Unsigned(2)) + Print(Text(SHA256_NAME))) + (Print(Unsigned(3)) + Print(Bytes(m.digest)));
    return Ok(out);
  }

  lemma PrintFourEntries(es: seq<Entry>)
    requires |es| == 4
    ensures Print(Map(es)) == Head(5, 4) + PrintEntry(es[0]) + PrintEntry(es[1]) + PrintEntry(es[2]) + PrintEntry(es[3])
  {
    hide PrintEntry, Head;
    var e1, e2, e3 := es[1..], es[2..], es[3..];
    assert e1[1..] == e2 && e2[1..] == e3 && e3[1..] == [];
    assert PrintEntries(e3) == PrintEntry(es[3]) + PrintEntries([]);
    assert PrintEntries(e2) == PrintEntry(es[2]) + PrintEntries(e3);
    assert PrintEntries(e1) == PrintEntry(es[1]) + PrintEntries(e2);
    assert PrintEntries(es) == PrintEntry(es[0]) + PrintEntries(e1);
  }

  /** The bytes of the four entries: the size in shortest form, and all else fixed. */
  lemma WrittenBytes(m: Meta, chunkSize: nat)
    requires Typed(m) && ToCbor(m, chunkSize).Ok?
    ensures ToCbor(m, chunkSize).value
         == [0xa4, 0x00, 0x01, 0x01] + Head(0, m.plaintextSize) + [0x02, 0x66] + Ascii("sha256")
          + [0x03, 0x58, 0x20] + m.digest
  {
    hide Validate, PrintEntry, Head, Ascii;
    PrintFourEntries(Entries(m));
    FixedParts(m);
  }

  lemma FixedParts(m: Meta)
    requires |m.digest| == 32
    ensures Head(5, 4) == [0xa4]
    ensures
      var es := Entries(m);
      && PrintEntry(es[0]) == [0x00, 0x01] && PrintEntry(es[1]) == [0x01] + Head(0, m.plaintextSize)
      && PrintEntry(es[2]) == [0x02, 0x66] + Ascii("sha256") && PrintEntry(es[3]) == [0x03, 0x58, 0x20] + m.digest
  {
    hide BigEndian;
    Sha256Spelling();
    OneByte(32);
    assert Head(0, 0) == [0] && Head(0, 1) == [1] && Head(0, 2) == [2] && Head(0, 3) == [3];
  }

  lemma OneByte(n: byte)
    ensures BigEndian(n, 1) == [n]
  {
    assert BigEndian(n / 256, 0) == [];
  }

  // ----- reading

  function FaultError(f: Fault): Error {
    if f.Eof? then UnexpectedEof else InvalidCborEncoding
  }

  /** One counted scalar of the given major type (0, 2 or 3); `wrong` reports another type. */
  function ReadScalar(major: nat, wrong: Error, data: bytes, pos: nat, items: nat): (r: Outcome<Parsed<Item>>)
    requires pos <= |data| && major in {0, 2, 3}
    ensures r.Ok? ==> pos < r.value.pos <= |data| && Major(r.value.value) == major
  {
    if !CountOk(PROFILE, items + 1) then Err(InvalidCborEncoding)
    else
      var head := ReadHead(data, pos);
      if head.Err? then Err(FaultError(head.error))
      else if head.value.major != major then Err(wrong)
      else if major == 0 then Ok(Parsed(Unsigned(head.value.value), head.value.pos, items + 1))
      else
        var b := Take(data, head.value.pos, head.value.value);
        if b.Err? then Err(FaultError(b.error))
        else if major == 2 then Ok(Parsed(Bytes(b.value), head.value.pos + |b.value|, items + 1))
        else if !ValidUtf8(b.value) then Err(InvalidCborEncoding)
        else Ok(Parsed(Text(b.value), head.value.pos + |b.value|, items + 1))
  }

  /** The required fields seen so far. */
  datatype Fields = Fields(version: Option<nat>, size: Option<nat>, alg: Option<bytes>, digest: Option<bytes>)

  const NO_FIELDS := Fields(None, None, None, None)

  /** The type the schema gives the value of `key`. */
  function Expected(key: nat): nat {
    if key <= 1 then 0 else if key == 2 then 3 else 2
  }

  /** The value has the type the schema gives it, and the digest its length; other keys are free. */
  predicate WellTyped(key: nat, value: Item) {
    key <= 3 ==> Major(value) == Expected(key) && (key == 3 ==> |value.b| == 32)
  }

  function Store(fields: Fields, key: nat, value: Item): Fields
    requires WellTyped(key, value)
  {
    if key == 0 then fields.(version := Some(value.n))
    else if key == 1 then fields.(size := Some(value.n))
    else if key == 2 then fields.(alg := Some(value.b))
    else if key == 3 then fields.(digest := Some(value.b))
    else fields
  }

  function ReadValue(key: nat, data: bytes, pos: nat, items: nat): (r: Outcome<Parsed<Item>>)
    requires pos <= |data|
    ensures r.Ok? ==> pos < r.value.pos <= |data| && WellTyped(key, r.value.value)
  {
    if key <= 3 then
      var r := ReadScalar(Expected(key), InvalidMetadataField, data, pos, items);
      if r.Ok? && key == 3 && |r.value.value.b| != 32 then Err(InvalidMetadataField) else r
    else
      var r := Parse(PROFILE, data, pos, 1, items);
      if r.Err? then Err(FaultError(r.error)) else Ok(r.value)
  }

  /** `n` map entries, collecting the required fields. */
  function ReadEntries(data: bytes, pos: nat, items: nat, n: nat, previous: Option<bytes>, fields: Fields)
    : (r: Outcome<Parsed<Fields>>)
    requires pos <= |data|
    ensures r.Ok? ==> pos <= r.value.pos <= |data|
    decreases n
  {
    if n == 0 then Ok(Parsed(fields, pos, items))
    else
      var key := ReadScalar(0, InvalidCborEncoding, data, pos, items);
      if key.Err? then Err(key.error)
      else
        var encoded := data[pos..key.value.pos];
        if previous.Some? && !Less(previous.value, encoded) then Err(InvalidCborEncoding)
        else
          var value := ReadValue(key.value.value.n, data, key.value.pos, key.value.items);
          if value.Err? then Err(value.error)
          else ReadEntries(data, value.value.pos, value.value.items, n - 1, Some(encoded),
                           Store(fields, key.value.value.n, value.value.value))
  }

  function Finish(fields: Fields, chunkSize: nat): Outcome<Meta> {
    if fields.version.None? then Err(MissingRequiredMetadataField)
    else if fields.version.value != 1 then Err(InvalidMetadataField)
    else if fields.alg.None? then Err(MissingRequiredMetadataField)
    else if fields.alg.value != SHA256_NAME then Err(InvalidMetadataField)
    else if fields.size.None? || fields.digest.None? then Err(MissingRequiredMetadataField)
    else
      var m := Meta(fields.size.value, fields.digest.value);
      var ok := Validate(m, chunkSize);
      if ok.Err? then Err(ok.error) else Ok(m)
  }

  function FromCbor(data: bytes, chunkSize: nat): Outcome<Meta> {
    var head := ReadHead(data, 0);
    if head.Err? then Err(FaultError(head.error))
    else if head.value.major != 5 || head.value.value > MAX_ITEMS then Err(InvalidCborEncoding)
    else
      var r := ReadEntries(data, head.value.pos, 1, head.value.value, None, NO_FIELDS);
      if r.Err? then Err(r.error)
      else
        var m := Finish(r.value.value, chunkSize);
        if m.Err? then m
        else if r.value.pos != |data| then Err(InvalidCborEncoding)
        else m
  }

  // ----- reading agrees with the general decoder

  lemma ScalarIsParse(major: nat, wrong: Error, data: bytes, pos: nat, items: nat)
    requires pos <= |data| && major in {0, 2, 3}
    ensures var r, p := ReadScalar(major, wrong, data, pos, items), Parse(PROFILE, data, pos, 1, items);
      && (r.Ok? <==> p.Ok? && Major(p.value.value) == major)
      && (r.Ok? ==> r.value == p.value)
  {
    hide ReadHead, ValidUtf8, ParseAll, ParseEntries;
  }

  lemma ValueIsParse(key: nat, data: bytes, pos: nat, items: nat)
    requires pos <= |data|
    ensures var r, p := ReadValue(key, data, pos, items), Parse(PROFILE, data, pos, 1, items);
      && (r.Ok? <==> p.Ok? && WellTyped(key, p.value.value))
      && (r.Ok? ==> r.value == p.value)
  {
    hide Parse, ReadScalar;
    if key <= 3 {
      ScalarIsParse(Expected(key), InvalidMetadataField, data, pos, items);
    }
  }

  /** Unsigned keys, each with a value of the schema's type. */
  predicate Conforms(es: seq<Entry>) {
    forall i :: 0 <= i < |es| ==> es[i].key.Unsigned? && WellTyped(es[i].key.n, es[i].value)
  }

  function Collect(fields: Fields, es: seq<Entry>): Fields
    requires Conforms(es)
    decreases |es|
  {
    if |es| == 0 then fields else Collect(Store(fields, es[0].key.n, es[0].value), es[1..])
  }

  lemma {:induction false} EntriesAreParsed(data: bytes, pos: nat, items: nat, n: nat, previous: Option<bytes>,
                                            fields: Fields, earlier: seq<Item>, last: bytes)
    requires pos <= |data| && (previous.Some? <==> |earlier| > 0) && (previous.Some? ==> previous.value == last)
    ensures var r, p := ReadEntries(data, pos, items, n, previous, fields),
                        ParseEntries(PROFILE, data, pos, 1, items, n, earlier, last);
      && (r.Ok? <==> p.Ok? && Conforms(p.value.value))
      && (r.Ok? ==> r.value == Parsed(Collect(fields, p.value.value), p.value.pos, p.value.items))
    decreases n
  {
    hide Parse, ReadScalar, ReadValue, Less, WellTyped, Store;
    if n > 0 {
      ScalarIsParse(0, InvalidCborEncoding, data, pos, items);
      var k := Parse(PROFILE, data, pos, 1, items);
      if k.Ok? && (previous.None? || Less(last, data[pos..k.value.pos])) {
        var key := k.value.value;
        var encoded := data[pos..k.value.pos];
        var v := Parse(PROFILE, data, k.value.pos, 1, k.value.items);
        if key.Unsigned? {
          ValueIsParse(key.n, data, k.value.pos, k.value.items);
        }
        if v.Ok? {
          var rest := ParseEntries(PROFILE, data, v.value.pos, 1, v.value.items, n - 1, earlier + [key], encoded);
          if rest.Ok? {
            ConformsCons(Entry(key, v.value.value), rest.value.value);
          }
          if key.Unsigned? && WellTyped(key.n, v.value.value) {
            EntriesAreParsed(data, v.value.pos, v.value.items, n - 1, Some(encoded),
                             Store(fields, key.n, v.value.value), earlier + [key], encoded);
            if rest.Ok? && Conforms(rest.value.value) {
              CollectCons(fields, Entry(key, v.value.value), rest.value.value);
            }
          }
        }
      }
    }
  }

  lemma ConformsCons(e: Entry, rest: seq<Entry>)
    ensures Conforms([e] + rest) <==> e.key.Unsigned? && WellTyped(e.key.n, e.value) && Conforms(rest)
  {
    hide WellTyped;
    var es := [e] + rest;
    assert es[0] == e;
    forall i | 0 <= i < |rest|
      ensures rest[i] == es[i + 1]
    {
    }
  }

  lemma CollectCons(fields: Fields, e: Entry, rest: seq<Entry>)
    requires e.key.Unsigned? && WellTyped(e.key.n, e.value) && Conforms(rest) && Conforms([e] + rest)
    ensures Collect(fields, [e] + rest) == Collect(Store(fields, e.key.n, e.value), rest)
  {
    hide WellTyped, Store;
    assert ([e] + rest)[1..] == rest;
  }

  // ----- what is accepted, said without the reader

  /** Keys strictly increase. */
  ghost predicate Increasing(es: seq<Entry>)
    requires Conforms(es)
  {
    forall i, j :: 0 <= i < j < |es| ==> es[i].key.n < es[j].key.n
  }

  /** The map holds version 1, the SHA-256 algorithm name and the fields of `m`; other keys do not matter. */
  ghost predicate Describes(es: seq<Entry>, m: Meta) {
    && Conforms(es)
    && Entry(Unsigned(0), Unsigned(1)) in es && Entry(Unsigned(1), Unsigned(m.plaintextSize)) in es
    && Entry(Unsigned(2), Text(Ascii("sha256"))) in es && Entry(Unsigned(3), Bytes(m.digest)) in es
  }

  /** The field for a required key, as an item. */
  function Field(fields: Fields, key: nat): Option<Item>
    requires key <= 3
  {
    if key == 0 then (if fields.version.Some? then Some(Unsigned(fields.version.value)) else None)
    else if key == 1 then (if fields.size.Some? then Some(Unsigned(fields.size.value)) else None)
    else if key == 2 then (if fields.alg.Some? then Some(Text(fields.alg.value)) else None)
    else (if fields.digest.Some? then Some(Bytes(fields.digest.value)) else None)
  }

  lemma StoreField(fields: Fields, key: nat, value: Item, k: nat)
    requires WellTyped(key, value) && k <= 3
    ensures Field(Store(fields, key, value), k) == if key == k then Some(value) else Field(fields, k)
  {
  }

  lemma {:induction false} CollectAbsent(fields: Fields, es: seq<Entry>, k: nat)
    requires Conforms(es) && k <= 3 && forall i :: 0 <= i < |es| ==> es[i].key.n != k
    ensures Field(Collect(fields, es), k) == Field(fields, k)
    decreases |es|
  {
    hide Store, WellTyped, Field;
    if |es| > 0 {
      StoreField(fields, es[0].key.n, es[0].value, k);
      CollectAbsent(Store(fields, es[0].key.n, es[0].value), es[1..], k);
    }
  }

  lemma {:induction false} CollectPresent(fields: Fields, es: seq<Entry>, i: nat)
    requires Conforms(es) && Increasing(es) && i < |es| && es[i].key.n <= 3
    ensures Field(Collect(fields, es), es[i].key.n) == Some(es[i].value)
    decreases |es|
  {
    hide Store, WellTyped, Field;
    var k := es[i].key.n;
    var next := Store(fields, es[0].key.n, es[0].value);
    StoreField(fields, es[0].key.n, es[0].value, k);
    if i == 0 {
      CollectAbsent(next, es[1..], k);
    } else {
      CollectPresent(next, es[1..], i - 1);
    }
  }

  /** One required field was collected as `value` exactly when the map holds that entry. */
  lemma CollectedIff(es: seq<Entry>, k: nat, value: Item)
    requires Conforms(es) && Increasing(es) && k <= 3
    ensures Field(Collect(NO_FIELDS, es), k) == Some(value) <==> Entry(Unsigned(k), value) in es
  {
    hide Collect, WellTyped, Field;
    var e := Entry(Unsigned(k), value);
    if e in es {
      var i :| 0 <= i < |es| && es[i] == e;
      CollectPresent(NO_FIELDS, es, i);
    } else if i :| 0 <= i < |es| && es[i].key.n == k {
      CollectPresent(NO_FIELDS, es, i);
      assert es[i].key == Unsigned(k);
    } else {
      CollectAbsent(NO_FIELDS, es, k);
      NothingCollected(k);
    }
  }

  lemma NothingCollected(k: nat)
    requires k <= 3
    ensures Field(NO_FIELDS, k) == None
  {
  }

  lemma {:induction false} KeysIncrease(es: seq<Entry>, earlier: seq<Item>)
    requires AdmitsEntries(PROFILE, 1, es, earlier) && Conforms(es)
    requires |earlier| > 0 ==> earlier[|earlier| - 1].Unsigned? && earlier[|earlier| - 1].n < U64_LIMIT
    ensures Increasing(es)
    ensures |earlier| > 0 && |es| > 0 ==> earlier[|earlier| - 1].n < es[0].key.n
    decreases |es|
  {
    hide WellTyped, Less, Print;
    if |es| > 0 {
      var key := es[0].key;
      assert AdmitsEntry(PROFILE, 1, es[0]) && Admits(PROFILE, 1, key);
      if |earlier| > 0 {
        KeysBefore(earlier[|earlier| - 1], key);
      }
      KeysIncrease(es[1..], earlier + [key]);
      forall i, j | 0 <= i < j < |es|
        ensures es[i].key.n < es[j].key.n
      {
        assert es[j] == es[1..][j - 1] && (i > 0 ==> es[i] == es[1..][i - 1]);
        assert es[1..][0].key.n <= es[1..][j - 1].key.n;
      }
    }
  }

  lemma KeysBefore(a: Item, b: Item)
    requires a.Unsigned? && b.Unsigned? && a.n < U64_LIMIT && b.n < U64_LIMIT
    requires Less(Print(a), Print(b))
    ensures a.n < b.n
  {
    hide Print;
    if b.n < a.n {
      SmallerArgument(b, a);
      LessTrichotomy(Print(a), Print(b));
    } else if a.n == b.n {
      LessTrichotomy(Print(a), Print(a));
    }
  }

  lemma {:induction false} EntriesFitBudget(es: seq<Entry>)
    ensures |es| <= SizeEntries(es)
    decreases |es|
  {
    if |es| > 0 {
      EntriesFitBudget(es[1..]);
    }
  }

  /** The reader's map loop succeeds exactly when the general decoder finds a conforming map. */
  lemma MapIsParse(data: bytes)
    ensures
      var head := ReadHead(data, 0);
      var p := Parse(PROFILE, data, 0, 0, 0);
      var read := head.Ok? && head.value.major == 5 && head.value.value <= MAX_ITEMS;
      && (p.Ok? && p.value.value.Map? && Conforms(p.value.value.entries) ==> read)
      && (read ==>
          var r := ReadEntries(data, head.value.pos, 1, head.value.value, None, NO_FIELDS);
          && (r.Ok? <==> p.Ok? && p.value.value.Map? && Conforms(p.value.value.entries))
          && (r.Ok? ==> r.value == Parsed(Collect(NO_FIELDS, p.value.value.entries), p.value.pos, p.value.items)))
  {
    hide ReadHead, ParseAll, ParseEntries, ReadEntries, Conforms, Collect, ValidUtf8;
    var head := ReadHead(data, 0);
    var p := Parse(PROFILE, data, 0, 0, 0);
    if head.Ok? && head.value.major == 5 {
      EntriesAreParsed(data, head.value.pos, 1, head.value.value, None, NO_FIELDS, [], []);
      if p.Ok? {
        Budget(data);
      }
    }
  }

  lemma Budget(data: bytes)
    requires Parse(PROFILE, data, 0, 0, 0).Ok? && ReadHead(data, 0).Ok? && ReadHead(data, 0).value.major == 5
    ensures ReadHead(data, 0).value.value <= MAX_ITEMS
  {
    hide ReadHead, ParseAll, ParseEntries, Print, Admits, ValidUtf8;
    var p := Parse(PROFILE, data, 0, 0, 0).value;
    Sound(PROFILE, data, 0, 0, 0);
    EntriesFitBudget(p.value.entries);
    ParsedCount(PROFILE, data, ReadHead(data, 0).value.pos, 1, 1, ReadHead(data, 0).value.value, [], []);
  }

  lemma {:induction false} ParsedCount(p: Profile, data: bytes, pos: nat, depth: nat, items: nat, n: nat,
                                       earlier: seq<Item>, previous: bytes)
    requires pos <= |data|
    ensures var r := ParseEntries(p, data, pos, depth, items, n, earlier, previous);
      r.Ok? ==> |r.value.value| == n
    decreases n
  {
    hide Parse, KeyAllowed, Before;
    if n > 0 {
      var key := Parse(p, data, pos, depth, items);
      if key.Ok? {
        var value := Parse(p, data, key.value.pos, depth, key.value.items);
        if value.Ok? {
          ParsedCount(p, data, value.value.pos, depth, value.value.items, n - 1,
                      earlier + [key.value.value], data[pos..key.value.pos]);
        }
      }
    }
  }

  /**
   Bytes are accepted as the metadata `m` exactly when they are the deterministic encoding, within the depth and item
   limits, of a map with unsigned keys that holds the required entries of `m`, and `m` suits the chunk size.
   */
  lemma AcceptsExactly(data: bytes, chunkSize: nat, m: Meta)
    ensures FromCbor(data, chunkSize) == Ok(m)
       <==> Validate(m, chunkSize).Ok? && exists es: seq<Entry> :: Encodes(data, es) && Describes(es, m)
  {
    hide Parse, ReadEntries, Validate, Print, Size, Admits, Collect, Describes, ReadHead;
    MapIsParse(data);
    var p := Parse(PROFILE, data, 0, 0, 0);
    if FromCbor(data, chunkSize) == Ok(m) {
      var es := p.value.value.entries;
      Sound(PROFILE, data, 0, 0, 0);
      assert data == Print(Map(es));
      CollectedDescribes(es, m);
    }
    if es: seq<Entry> :| Encodes(data, es) && Describes(es, m) {
      Complete(PROFILE, data, 0, 0, 0, Map(es));
      DescribedConforms(es, m);
      if Validate(m, chunkSize).Ok? {
        CollectedDescribes(es, m);
      }
    }
  }

  /** `data` is the encoding of the map `es`, which the profile admits within the item budget. */
  ghost predicate Encodes(data: bytes, es: seq<Entry>) {
    && data == Print(Map(es)) && Size(Map(es)) <= 65536
    && Admits(Profile(Some(32), Some(65536), false, false, AnyKey), 0, Map(es))
  }

  lemma DescribedConforms(es: seq<Entry>, m: Meta)
    requires Describes(es, m)
    ensures Conforms(es)
  {
  }

  lemma CollectedDescribes(es: seq<Entry>, m: Meta)
    requires Conforms(es) && Admits(PROFILE, 0, Map(es))
    ensures Describes(es, m)
       <==> Collect(NO_FIELDS, es) == Fields(Some(1), Some(m.plaintextSize), Some(SHA256_NAME), Some(m.digest))
  {
    hide Conforms, Collect, Increasing, AdmitsEntries;
    KeysIncrease(es, []);
    CollectedIff(es, 0, Unsigned(1));
    CollectedIff(es, 1, Unsigned(m.plaintextSize));
    CollectedIff(es, 2, Text(SHA256_NAME));
    CollectedIff(es, 3, Bytes(m.digest));
    Sha256Spelling();
  }

  lemma Sha256Spelling()
    ensures SHA256_NAME == Ascii("sha256")
  {
  }

  /** Writing then reading gives the metadata back. */
  lemma ReadsWritten(m: Meta, chunkSize: nat)
    requires Typed(m) && ToCbor(m, chunkSize).Ok?
    ensures FromCbor(ToCbor(m, chunkSize).value, chunkSize) == Ok(m)
  {
    hide Print, Size, Validate, FromCbor, Admits;
    WrittenIsAdmitted(m);
    Sha256Spelling();
    assert Encodes(ToCbor(m, chunkSize).value, Entries(m)) && Describes(Entries(m), m);
    AcceptsExactly(ToCbor(m, chunkSize).value, chunkSize, m);
  }

  lemma WrittenIsAdmitted(m: Meta)
    requires Typed(m)
    ensures Admits(PROFILE, 0, Map(Entries(m))) && CountOk(PROFILE, Size(Map(Entries(m))))
  {
    hide AdmitsEntries, Print, ValidUtf8, SizeEntries;
    var es := Entries(m);
    AsciiIsUtf8(SHA256_NAME);
    AdmitsLast(es[3], 3);
    AdmitsCons(es[2], es[3..], 2);
    assert [es[2]] + es[3..] == es[2..];
    AdmitsCons(es[1], es[2..], 1);
    assert [es[1]] + es[2..] == es[1..];
    AdmitsCons(es[0], es[1..], 0);
    assert [es[0]] + es[1..] == es && UpTo(0) == [];
    SizeOfFour(es);
  }

  /** The keys 0, 1, ... before `n`. */
  ghost function UpTo(n: nat): (keys: seq<Item>)
    ensures |keys| == n && forall i :: 0 <= i < n ==> keys[i] == Unsigned(i)
  {
    seq(n, i requires 0 <= i < n => Unsigned(i))
  }

  lemma AdmitsLast(e: Entry, n: nat)
    requires 0 < n < U64_LIMIT && e.key == Unsigned(n) && Admits(PROFILE, 1, e.value)
    ensures AdmitsEntries(PROFILE, 1, [e], UpTo(n))
  {
    hide Print, Less, ValidUtf8;
    SmallerArgument(Unsigned(n - 1), Unsigned(n));
    assert Admits(PROFILE, 1, Unsigned(n)) && AdmitsEntry(PROFILE, 1, e);
    assert KeyFits(PROFILE, e.key, UpTo(n));
    assert AdmitsEntries(PROFILE, 1, [e][1..], UpTo(n) + [e.key]);
  }

  lemma AdmitsCons(e: Entry, rest: seq<Entry>, n: nat)
    requires n < U64_LIMIT && e.key == Unsigned(n) && Admits(PROFILE, 1, e.value)
    requires AdmitsEntries(PROFILE, 1, rest, UpTo(n + 1))
    ensures AdmitsEntries(PROFILE, 1, [e] + rest, UpTo(n))
  {
    hide Print, Less, ValidUtf8;
    if n > 0 {
      SmallerArgument(Unsigned(n - 1), Unsigned(n));
    }
    assert Admits(PROFILE, 1, Unsigned(n)) && AdmitsEntry(PROFILE, 1, e);
    assert KeyFits(PROFILE, e.key, UpTo(n));
    assert UpTo(n) + [e.key] == UpTo(n + 1);
    assert ([e] + rest)[1..] == rest;
  }

  lemma SizeOfFour(es: seq<Entry>)
    requires |es| == 4 && forall e :: e in es ==> SizeEntry(e) == 2
    ensures SizeEntries(es) == 8
  {
    hide SizeEntry;
    assert es[0] in es && es[1] in es && es[2] in es && es[3] in es;
    assert SizeEntries(es[3..]) == 2;
    assert es[2..][1..] == es[3..] && SizeEntries(es[2..]) == 4;
    assert es[1..][1..] == es[2..] && SizeEntries(es[1..]) == 6;
  }

  /** Accepted bytes whose map has only the four required entries are exactly what the writer writes. */
  lemma WritesRead(data: bytes, chunkSize: nat)
    requires FromCbor(data, chunkSize).Ok? && ReadHead(data, 0).value.value == 4
    ensures ToCbor(FromCbor(data, chunkSize).value, chunkSize) == Ok(data)
  {
    hide Parse, ReadEntries, Validate, Print, Size, Admits, ReadHead, Describes, Conforms;
    var m := FromCbor(data, chunkSize).value;
    AcceptsExactly(data, chunkSize, m);
    var es: seq<Entry> :| Encodes(data, es) && Describes(es, m);
    DeclaredCount(data, es);
    OnlyRequired(es, m);
  }

  lemma DeclaredCount(data: bytes, es: seq<Entry>)
    requires Encodes(data, es)
    ensures ReadHead(data, 0).Ok? && ReadHead(data, 0).value.value == |es|
  {
    hide Head, ReadHead, PrintEntries, AdmitsEntries, SizeEntries;
    AtConcat(data, 0, Head(5, |es|), PrintEntries(es));
    ReadsHead(data, 0, 5, |es|);
  }

  lemma OnlyRequired(es: seq<Entry>, m: Meta)
    requires Admits(PROFILE, 0, Map(es)) && Describes(es, m) && |es| == 4
    ensures es == Entries(m)
  {
    hide AdmitsEntries, Conforms, Increasing, Describes;
    DescribedConforms(es, m);
    KeysIncrease(es, []);
    var all := Entries(m);
    DescribedHas(es, m);
    EntryAtKey(es, all[0], 0);
    EntryAtKey(es, all[1], 1);
    EntryAtKey(es, all[2], 2);
    EntryAtKey(es, all[3], 3);
  }

  lemma DescribedHas(es: seq<Entry>, m: Meta)
    requires Describes(es, m)
    ensures forall k :: 0 <= k < 4 ==> Entries(m)[k] in es
  {
    hide Conforms;
    Sha256Spelling();
  }

  /** Where all smaller keys come first, the entry with key `k` is number `k`. */
  lemma EntryAtKey(es: seq<Entry>, e: Entry, k: nat)
    requires Conforms(es) && Increasing(es) && k < |es| && e in es && e.key == Unsigned(k)
    requires forall j :: 0 <= j < k ==> es[j].key == Unsigned(j)
    ensures es[k] == e
  {
    hide WellTyped, Increasing;
    var i :| 0 <= i < |es| && es[i] == e;
    AtLeastIndex(es, i);
  }

  lemma {:induction false} AtLeastIndex(es: seq<Entry>, i: nat)
    requires Conforms(es) && Increasing(es) && i < |es|
    ensures es[i].key.n >= i
  {
    hide WellTyped;
    if i > 0 {
      AtLeastIndex(es, i - 1);
    }
  }

  /** Accepted metadata are well formed and suit the chunk size they were read with. */
  lemma AcceptedIsValid(data: bytes, chunkSize: nat)
    requires FromCbor(data, chunkSize).Ok?
    ensures Typed(FromCbor(data, chunkSize).value) && Validate(FromCbor(data, chunkSize).value, chunkSize).Ok?
  {
    hide FromCbor, Encodes;
    var m := FromCbor(data, chunkSize).value;
    AcceptsExactly(data, chunkSize, m);
    var es: seq<Entry> :| Encodes(data, es) && Describes(es, m);
  }
}
