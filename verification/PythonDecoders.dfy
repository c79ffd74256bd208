/**
  The two Python decoders, against the encoders of the same tools.

  `decode_deterministic_cbor` and `decode_cbor_exact` read back what was encoded exactly
  when the value keeps to their limits: the nesting, and for `decode_deterministic_cbor`
  also that no key is a tuple, which its encoder takes and it cannot hash once it has
  become a list.
 */
module PythonDecoders {
  import opened Bits
  import opened Outcomes
  import opened ByteStrings
  import opened Utf8
  import opened Cbor
  import opened PythonCbor

  // ----- what is admitted keeps to the profile

  lemma {:induction false} AdmittedFits(p: Profile, depth: nat, v: Item)
    requires Admits(p, depth, v)
    ensures Fits(p, depth, v)
    decreases v
  {
    hide ValidUtf8;
    match v {
      case Array(xs) => AdmittedAllFit(p, depth + 1, xs);
      case Map(es) => AdmittedEntriesFit(p, depth + 1, es, []);
      case _ =>
    }
  }

  lemma {:induction false} AdmittedAllFit(p: Profile, depth: nat, xs: seq<Item>)
    requires AdmitsAll(p, depth, xs)
    ensures forall x :: x in xs ==> Fits(p, depth, x)
    decreases xs
  {
    hide Admits, Fits;
    if |xs| > 0 {
      AdmittedFits(p, depth, xs[0]);
      AdmittedAllFit(p, depth, xs[1..]);
      assert xs == [xs[0]] + xs[1..];
    }
  }

  lemma {:induction false} AdmittedEntryFits(p: Profile, depth: nat, e: Entry)
    requires AdmitsEntry(p, depth, e) && (p.keys.PythonKey? ==> Hashable(e.key))
    ensures FitsEntry(p, depth, e)
    decreases e
  {
    hide Admits, Fits;
    AdmittedFits(p, depth, e.key);
    AdmittedFits(p, depth, e.value);
  }

  lemma {:induction false} AdmittedEntriesFit(p: Profile, depth: nat, es: seq<Entry>, earlier: seq<Item>)
    requires AdmitsEntries(p, depth, es, earlier)
    ensures forall e :: e in es ==> FitsEntry(p, depth, e)
    decreases es
  {
    hide AdmitsEntry, FitsEntry, Print, Before;
    if |es| > 0 {
      AdmittedEntryFits(p, depth, es[0]);
      AdmittedEntriesFit(p, depth, es[1..], earlier + [es[0].key]);
      assert es == [es[0]] + es[1..];
    }
  }

  ghost predicate AllFit(p: Profile, depth: nat, xs: seq<Item>) {
    forall x :: x in xs ==> Fits(p, depth, x)
  }

  lemma FitsArray(p: Profile, depth: nat, xs: seq<Item>)
    ensures Fits(p, depth, Array(xs)) <==> DepthOk(p, depth) && AllFit(p, depth + 1, xs)
  {
  }

  /** Reordering entries changes nothing that a profile looks at. */
  lemma {:induction false} FitsCanon(p: Profile, depth: nat, shorterFirst: bool, v: Item)
    ensures Fits(p, depth, Canon(shorterFirst, v)) <==> Fits(p, depth, v)
    decreases v
  {
    hide SortEntries;
    match v {
      case Array(xs) =>
        FitsCanonAll(p, depth + 1, shorterFirst, xs);
        FitsArray(p, depth, xs);
        FitsArray(p, depth, CanonAll(shorterFirst, xs));
      case Map(es) =>
        FitsCanonEntries(p, depth + 1, shorterFirst, es);
        SortMembers(shorterFirst, CanonEntries(shorterFirst, es));
      case _ =>
    }
  }

  lemma {:induction false} FitsCanonAll(p: Profile, depth: nat, shorterFirst: bool, xs: seq<Item>)
    ensures AllFit(p, depth, CanonAll(shorterFirst, xs)) <==> AllFit(p, depth, xs)
    decreases xs
  {
    hide Fits, Canon;
    if |xs| > 0 {
      FitsCanon(p, depth, shorterFirst, xs[0]);
      FitsCanonAll(p, depth, shorterFirst, xs[1..]);
      var canon := CanonAll(shorterFirst, xs);
      assert canon == [canon[0]] + CanonAll(shorterFirst, xs[1..]) && xs == [xs[0]] + xs[1..];
      assert canon[0] in canon && xs[0] in xs;
      assert forall x :: x in canon <==> x == canon[0] || x in CanonAll(shorterFirst, xs[1..]);
    }
  }

  lemma {:induction false} FitsCanonEntry(p: Profile, depth: nat, shorterFirst: bool, e: Entry)
    ensures FitsEntry(p, depth, CanonEntry(shorterFirst, e)) <==> FitsEntry(p, depth, e)
    decreases e
  {
    hide Fits;
    FitsCanon(p, depth, shorterFirst, e.key);
    FitsCanon(p, depth, shorterFirst, e.value);
  }

  lemma {:induction false} FitsCanonEntries(p: Profile, depth: nat, shorterFirst: bool, es: seq<Entry>)
    ensures (forall e :: e in CanonEntries(shorterFirst, es) ==> FitsEntry(p, depth, e))
       <==> (forall e :: e in es ==> FitsEntry(p, depth, e))
    decreases es
  {
    hide FitsEntry, CanonEntry;
    if |es| > 0 {
      FitsCanonEntry(p, depth, shorterFirst, es[0]);
      FitsCanonEntries(p, depth, shorterFirst, es[1..]);
      var canon := CanonEntries(shorterFirst, es);
      assert canon == [canon[0]] + CanonEntries(shorterFirst, es[1..]) && es == [es[0]] + es[1..];
      assert canon[0] in canon && es[0] in es;
      assert forall e :: e in canon <==> e == canon[0] || e in CanonEntries(shorterFirst, es[1..]);
    }
  }

  // ----- no limits at all: encodings are unambiguous

  /** Any depth, sign, key and order. */
  const FREE := Profile(None, None, true, true, Unordered)

  lemma {:induction false} AdmittedFreely(p: Profile, depth: nat, v: Item)
    requires Admits(p, depth, v)
    ensures Admits(FREE, depth, v)
    decreases v
  {
    hide ValidUtf8;
    match v {
      case Array(xs) => AllAdmittedFreely(p, depth + 1, xs);
      case Map(es) => EntriesAdmittedFreely(p, depth + 1, es, [], []);
      case _ =>
    }
  }

  lemma {:induction false} AllAdmittedFreely(p: Profile, depth: nat, xs: seq<Item>)
    requires AdmitsAll(p, depth, xs)
    ensures AdmitsAll(FREE, depth, xs)
    decreases xs
  {
    hide Admits;
    if |xs| > 0 {
      AdmittedFreely(p, depth, xs[0]);
      AllAdmittedFreely(p, depth, xs[1..]);
    }
  }

  lemma {:induction false} EntryAdmittedFreely(p: Profile, depth: nat, e: Entry)
    requires AdmitsEntry(p, depth, e)
    ensures AdmitsEntry(FREE, depth, e)
    decreases e
  {
    hide Admits;
    AdmittedFreely(p, depth, e.key);
    AdmittedFreely(p, depth, e.value);
  }

  lemma {:induction false} EntriesAdmittedFreely(p: Profile, depth: nat, es: seq<Entry>,
    earlier: seq<Item>, others: seq<Item>)
    requires AdmitsEntries(p, depth, es, earlier)
    ensures AdmitsEntries(FREE, depth, es, others)
    decreases es
  {
    hide AdmitsEntry, Print, KeyOrder;
    if |es| > 0 {
      EntryAdmittedFreely(p, depth, es[0]);
      EntriesAdmittedFreely(p, depth, es[1..], earlier + [es[0].key], others + [es[0].key]);
    }
  }

  lemma {:induction false} AlwaysFits(p: Profile, depth: nat, v: Item)
    requires p.maxDepth.None? && p.negatives && !p.keys.PythonKey?
    ensures Fits(p, depth, v)
    decreases v
  {
    match v {
      case Array(xs) =>
        forall x | x in xs ensures Fits(p, depth + 1, x) {
          AlwaysFits(p, depth + 1, x);
        }
      case Map(es) =>
        forall e | e in es ensures FitsEntry(p, depth + 1, e) {
          EntryAlwaysFits(p, depth + 1, e);
        }
      case _ =>
    }
  }

  lemma {:induction false} EntryAlwaysFits(p: Profile, depth: nat, e: Entry)
    requires p.maxDepth.None? && p.negatives && !p.keys.PythonKey?
    ensures FitsEntry(p, depth, e)
    decreases e
  {
    hide Fits;
    AlwaysFits(p, depth, e.key);
    AlwaysFits(p, depth, e.value);
  }

  lemma CanonAdmittedFreely(shorterFirst: bool, v: Item)
    requires PythonValue(v)
    ensures Admits(FREE, 0, Canon(shorterFirst, v))
  {
    hide Admits, Canon, PythonValue, Fits;
    var p := FREE.(shorterFirst := shorterFirst);
    AlwaysFits(p, 0, v);
    CanonIsAdmitted(p, 0, v);
    AdmittedFreely(p, 0, Canon(shorterFirst, v));
  }

  /** Two Python values share an encoding exactly when they differ only in insertion order. */
  lemma EncodeIsInjective(shorterFirst: bool, v: Item, w: Item)
    requires PythonValue(v) && PythonValue(w)
    ensures Encode(shorterFirst, v) == Encode(shorterFirst, w) <==> Canon(shorterFirst, v) == Canon(shorterFirst, w)
  {
    hide Print, Encode, Canon, PythonValue, Admits;
    EncodeIsPrintCanon(shorterFirst, v);
    EncodeIsPrintCanon(shorterFirst, w);
    CanonAdmittedFreely(shorterFirst, v);
    CanonAdmittedFreely(shorterFirst, w);
    if Encode(shorterFirst, v) == Encode(shorterFirst, w) {
      PrintInjective(FREE, 0, Canon(shorterFirst, v), Canon(shorterFirst, w));
    }
  }

  // ----- decoders that build Python values

  predicate ReadWhole(p: Profile, data: bytes) {
    var r := Parse(p, data, 0, 0, 0);
    r.Ok? && r.value.pos == |data|
  }

  /** Whatever such a decoder accepts, encoding the value gives the input back. */
  lemma EncodesWhatWasRead(p: Profile, data: bytes)
    requires p.keys.PythonKey? && ReadWhole(p, data)
    ensures Encode(p.shorterFirst, Parse(p, data, 0, 0, 0).value.value) == data
  {
    hide Parse, Print, Encode, Canon, Admits;
    var v := Parse(p, data, 0, 0, 0).value.value;
    Sound(p, data, 0, 0, 0);
    AdmittedIsCanon(p, 0, v);
    EncodeIsPrintCanon(p.shorterFirst, v);
  }

  /** What keeps to the limits is read back, up to the insertion order of dictionaries. */
  lemma ReadsWhatFits(p: Profile, v: Item)
    requires p.keys.PythonKey? && p.maxItems.None? && PythonValue(v) && Fits(p, 0, v)
    ensures var data := Encode(p.shorterFirst, v);
      ReadWhole(p, data) && Parse(p, data, 0, 0, 0).value.value == Canon(p.shorterFirst, v)
  {
    hide Parse, Print, Encode, Canon, Admits, PythonValue, Size, Fits;
    EncodeIsPrintCanon(p.shorterFirst, v);
    CanonIsAdmitted(p, 0, v);
    Complete(p, Encode(p.shorterFirst, v), 0, 0, 0, Canon(p.shorterFirst, v));
  }

  /** What does not is refused: nothing else has the same encoding. */
  lemma ReadsOnlyWhatFits(p: Profile, v: Item)
    requires p.maxItems.None? && PythonValue(v) && ReadWhole(p, Encode(p.shorterFirst, v))
    ensures Fits(p, 0, v)
  {
    hide Parse, Print, Encode, Canon, Admits, PythonValue, Fits;
    var data := Encode(p.shorterFirst, v);
    var w := Parse(p, data, 0, 0, 0).value.value;
    Sound(p, data, 0, 0, 0);
    EncodeIsPrintCanon(p.shorterFirst, v);
    CanonAdmittedFreely(p.shorterFirst, v);
    AdmittedFreely(p, 0, w);
    PrintInjective(FREE, 0, w, Canon(p.shorterFirst, v));
    AdmittedFits(p, 0, w);
    FitsCanon(p, 0, p.shorterFirst, v);
  }

  // ----- the decoder of the parity tool

  /** At most 64 levels, shorter keys first. */
  const PARITY := Profile(Some(64), None, true, true, PythonKey)

  /** `decode_deterministic_cbor`: one item, nothing after it, and the re-encoding must match. */
  function DecodeDeterministic(data: bytes): Option<Item> {
    var r := Parse(PARITY, data, 0, 0, 0);
    if r.Err? || r.value.pos != |data| || Encode(true, r.value.value) != data then None else Some(r.value.value)
  }

  method DecodeDeterministicCbor(data: bytes) returns (r: Option<Item>)
    ensures r == DecodeDeterministic(data)
  {
    var item := ParseItem(PARITY, data, 0, 0, 0);
    if item.Err? || item.value.pos != |data| || Encode(true, item.value.value) != data {
      return None;
    }
    return Some(item.value.value);
  }

  /** Encoding inverts decoding, so the decoder's final comparison never refuses. */
  lemma EncodeInvertsDecode(data: bytes)
    requires ReadWhole(PARITY, data)
    ensures var v := Parse(PARITY, data, 0, 0, 0).value.value;
      Encode(true, v) == data && DecodeDeterministic(data) == Some(v)
  {
    hide Parse, Encode;
    EncodesWhatWasRead(PARITY, data);
  }

  /** Decoding inverts encoding, up to the insertion order of dictionaries, exactly within the limits. */
  lemma DecodeInvertsEncode(v: Item)
    requires PythonValue(v)
    ensures DecodeDeterministic(Encode(true, v)) == if Fits(PARITY, 0, v) then Some(Canon(true, v)) else None
  {
    hide Parse, Encode, Canon, PythonValue, Fits;
    if Fits(PARITY, 0, v) {
      ReadsWhatFits(PARITY, v);
      EncodeInvertsDecode(Encode(true, v));
    } else if ReadWhole(PARITY, Encode(true, v)) {
      ReadsOnlyWhatFits(PARITY, v);
    }
  }

  /** A dictionary with the tuple (1,) as its key is encoded, and its encoding is refused. */
  lemma TupleKeyIsNotReadBack()
    ensures var v := Map([Entry(Array([Unsigned(1)]), Unsigned(0))]);
      PythonValue(v) && Encode(true, v) == [0xa1, 0x81, 0x01, 0x00] && DecodeDeterministic(Encode(true, v)) == None
  {
    hide ValidUtf8, Head, SortEntries, DecodeDeterministic, Canon;
    var key := Array([Unsigned(1)]);
    var e := Entry(key, Unsigned(0));
    TupleKeyIsEncoded(key, e);
    assert e in [e] && !FitsEntry(PARITY, 1, e);
    DecodeInvertsEncode(Map([e]));
  }

  lemma TupleKeyIsEncoded(key: Item, e: Entry)
    requires key == Array([Unsigned(1)]) && e == Entry(key, Unsigned(0))
    ensures PythonValue(Map([e])) && Encode(true, Map([e])) == [0xa1, 0x81, 0x01, 0x00]
  {
    hide ValidUtf8, DecodeDeterministic, Canon, BigEndian, Fits;
    assert KeyLike(key) && PythonValue(key) && PythonEntry(e);
    assert DistinctKeys([e]);
    assert EncodeAll(true, [Unsigned(1)]) == [1];
    assert Encode(true, key) == [0x81, 0x01];
    assert EncodePair(true, e) == Pair([0x81, 0x01], [0x00]);
    assert EncodePairs(true, [e]) == [EncodePair(true, e)];
    assert Sort(true, EncodePairs(true, [e])) == EncodePairs(true, [e]);
    assert Join(EncodePairs(true, [e])) == [0x81, 0x01, 0x00];
  }

  // ----- the tool for objects

  /** Its encoder: no negative integers and no tuples, bytewise key order. */
  const WRITER := Profile(None, None, false, false, PythonKey)

  /** `cbor`. */
  function EncodeObject(v: Item): Option<bytes> {
    if Fits(WRITER, 0, v) then Some(Encode(false, v)) else None
  }

  /** Its decoder: at most 32 levels; negative integers are read. */
  const OBJECT := Profile(Some(32), None, false, true, PythonKey)

  /** `decode_cbor_exact`. */
  function DecodeExact(data: bytes): Option<Item> {
    if ReadWhole(OBJECT, data) then Some(Parse(OBJECT, data, 0, 0, 0).value.value) else None
  }

  /** No negative integer anywhere. */
  predicate NoNegatives(v: Item)
    decreases v
  {
    match v
    case Negative(_) => false
    case Array(xs) => forall x :: x in xs ==> NoNegatives(x)
    case Map(es) => forall e :: e in es ==> NoNegativesIn(e)
    case _ => true
  }

  predicate NoNegativesIn(e: Entry)
    decreases e
  {
    NoNegatives(e.key) && NoNegatives(e.value)
  }

  lemma {:induction false} WriterTakes(depth: nat, v: Item)
    requires Fits(OBJECT, depth, v)
    ensures Fits(WRITER, depth, v) <==> NoNegatives(v)
    decreases v
  {
    match v {
      case Array(xs) =>
        forall x | x in xs ensures Fits(WRITER, depth + 1, x) <==> NoNegatives(x) {
          WriterTakes(depth + 1, x);
        }
      case Map(es) =>
        forall e | e in es ensures FitsEntry(WRITER, depth + 1, e) <==> NoNegativesIn(e) {
          WriterTakesEntry(depth + 1, e);
        }
      case _ =>
    }
  }

  lemma {:induction false} WriterTakesEntry(depth: nat, e: Entry)
    requires FitsEntry(OBJECT, depth, e)
    ensures FitsEntry(WRITER, depth, e) <==> NoNegativesIn(e)
    decreases e
  {
    hide Fits, NoNegatives;
    WriterTakes(depth, e.key);
    WriterTakes(depth, e.value);
  }

  /** Encoding gives an accepted input back exactly when the value holds no negative integer. */
  lemma EncodeInvertsDecodeExact(data: bytes)
    requires DecodeExact(data).Some?
    ensures var v := DecodeExact(data).value;
      EncodeObject(v) == if NoNegatives(v) then Some(data) else None
  {
    hide Parse, Encode, Fits;
    var v := DecodeExact(data).value;
    EncodesWhatWasRead(OBJECT, data);
    Sound(OBJECT, data, 0, 0, 0);
    AdmittedFits(OBJECT, 0, v);
    WriterTakes(0, v);
  }

  method DecodeCborExact(data: bytes) returns (r: Option<Item>)
    ensures r == DecodeExact(data)
    ensures r.Some? ==> EncodeObject(r.value) == if NoNegatives(r.value) then Some(data) else None
    ensures r.Some? ==> Encode(false, r.value) == data
  {
    hide Parse, Encode, NoNegatives;
    var item := ParseItem(OBJECT, data, 0, 0, 0);
    if item.Ok? && item.value.pos == |data| {
      EncodesWhatWasRead(OBJECT, data);
      EncodeInvertsDecodeExact(data);
    }
    return if item.Err? || item.value.pos != |data| then None else Some(item.value.value);
  }

  /** The one byte 0x20 is read as -1, which the encoder refuses. */
  lemma NegativeIsNotWritten()
    ensures DecodeExact([0x20]) == Some(Negative(0)) && EncodeObject(Negative(0)) == None
  {
  }

  /** What the encoder writes is read back, exactly when the nesting is within the limit. */
  lemma DecodeExactInvertsEncode(v: Item)
    requires PythonValue(v) && EncodeObject(v).Some?
    ensures DecodeExact(EncodeObject(v).value) == if Fits(OBJECT, 0, v) then Some(Canon(false, v)) else None
  {
    hide Parse, Encode, Canon, PythonValue, Fits;
    if Fits(OBJECT, 0, v) {
      ReadsWhatFits(OBJECT, v);
    } else if ReadWhole(OBJECT, Encode(false, v)) {
      ReadsOnlyWhatFits(OBJECT, v);
    }
  }

  // ----- the nesting limits

  /** An empty array inside `n` arrays. */
  function Nested(n: nat): Item {
    if n == 0 then Array([]) else Array([Nested(n - 1)])
  }

  lemma {:induction false} NestedFits(p: Profile, depth: nat, n: nat)
    requires p.maxDepth.Some?
    ensures PythonValue(Nested(n)) && (Fits(p, depth, Nested(n)) <==> depth + n <= p.maxDepth.value)
    decreases n
  {
    if n > 0 {
      NestedFits(p, depth + 1, n - 1);
      var inner := Nested(n - 1);
      assert Nested(n).items == [inner] && inner in Nested(n).items;
    }
  }

  /** The parity tool reads back arrays nested 64 deep and refuses 65; the object tool reads 32 and refuses 33. */
  lemma NestingLimits(n: nat)
    ensures DecodeDeterministic(Encode(true, Nested(n))).Some? <==> n <= 64
    ensures EncodeObject(Nested(n)).Some? && (DecodeExact(EncodeObject(Nested(n)).value).Some? <==> n <= 32)
  {
    hide Parse, Encode, Canon, PythonValue, Fits, DecodeDeterministic, DecodeExact;
    NestedFits(PARITY, 0, n);
    NestedFits(OBJECT, 0, n);
    DecodeInvertsEncode(Nested(n));
    NestedIsWritten(0, n);
    DecodeExactInvertsEncode(Nested(n));
  }

  lemma {:induction false} NestedIsWritten(depth: nat, n: nat)
    ensures Fits(WRITER, depth, Nested(n))
    decreases n
  {
    if n > 0 {
      NestedIsWritten(depth + 1, n - 1);
      assert Nested(n).items == [Nested(n - 1)];
    }
  }
}
