/**
  Length-first and bytewise key order, compared.

  The parity tool orders the keys of a map by (length, bytes) and the object tool by
  bytes alone (sections 4.2.3 and 4.2.1 of RFC 8949). They agree on keys of one major
  type, and on others exactly when the key of the smaller type is no longer. So the two
  tools write the same bytes for a value exactly when the object tool takes the value and
  every two keys of one map are of that kind.
 */
module CborKeyOrder {
  import opened Bits
  import opened Outcomes
  import opened ByteStrings
  import opened Utf8
  import opened Cbor
  import opened PythonCbor
  import opened PythonDecoders

  /** A difference at a position inside both strings, with the smaller byte on the left. */
  predicate Decided(a: bytes, b: bytes)
    decreases |a|
  {
    |a| > 0 && |b| > 0 && (if a[0] != b[0] then a[0] < b[0] else Decided(a[1..], b[1..]))
  }

  lemma {:induction false} DecidedExtends(a: bytes, b: bytes, x: bytes, y: bytes)
    requires Decided(a, b)
    ensures Decided(a + x, b + y) && Less(a + x, b + y)
    decreases |a|
  {
    assert (a + x)[1..] == a[1..] + x && (b + y)[1..] == b[1..] + y;
    if a[0] == b[0] {
      DecidedExtends(a[1..], b[1..], x, y);
    }
  }

  lemma {:induction false} DecidedAfter(c: bytes, a: bytes, b: bytes)
    requires Decided(a, b)
    ensures Decided(c + a, c + b)
    decreases |c|
  {
    if |c| == 0 {
      assert c + a == a && c + b == b;
    } else {
      assert (c + a)[1..] == c[1..] + a && (c + b)[1..] == c[1..] + b;
      DecidedAfter(c[1..], a, b);
    }
  }

  lemma {:induction false} BigEndianOrder(n: nat, n': nat, width: nat)
    requires n < n' < Pow256(width)
    ensures Decided(BigEndian(n, width), BigEndian(n', width))
    decreases width
  {
    if width > 0 {
      var a, b := BigEndian(n / 256, width - 1), BigEndian(n' / 256, width - 1);
      if n / 256 < n' / 256 {
        BigEndianOrder(n / 256, n' / 256, width - 1);
        DecidedExtends(a, b, [n % 256], [n' % 256]);
      } else {
        DecidedAfter(a, [n % 256], [n' % 256]);
      }
    }
  }

  /** A larger argument gives a head that is larger and no shorter. */
  lemma HeadOrder(major: nat, n: nat, n': nat)
    requires major < 8 && n < n' < U64_LIMIT
    ensures Decided(Head(major, n), Head(major, n')) && |Head(major, n)| <= |Head(major, n')|
  {
    hide BigEndian, Pow256;
    Pow256Values();
    var h, h' := Head(major, n), Head(major, n');
    if h[0] == h'[0] {
      var lead, width := [h[0]], |h| - 1;
      assert h == lead + BigEndian(n, width) && h' == lead + BigEndian(n', width);
      BigEndianOrder(n, n', width);
      DecidedAfter(lead, BigEndian(n, width), BigEndian(n', width));
    }
  }

  /** The argument of the head of a hashable key, and what follows the head. */
  function Major(key: Item): nat {
    match key
    case Unsigned(_) => 0
    case Negative(_) => 1
    case Bytes(_) => 2
    case Text(_) => 3
    case Array(_) => 4
    case Map(_) => 5
    case Simple(_) => 7
  }

  function Argument(key: Item): nat
    requires Hashable(key)
  {
    match key
    case Unsigned(n) => n
    case Negative(n) => n
    case Bytes(b) => |b|
    case Text(b) => |b|
    case Simple(code) => code
  }

  function Payload(key: Item): bytes
    requires Hashable(key)
  {
    if key.Bytes? || key.Text? then key.b else []
  }

  predicate KeyInRange(key: Item) {
    Hashable(key) && Argument(key) < U64_LIMIT
  }

  lemma PrintKey(key: Item)
    requires Hashable(key)
    ensures Print(key) == Head(Major(key), Argument(key)) + Payload(key)
    ensures |Payload(key)| == if key.Bytes? || key.Text? then Argument(key) else 0
  {
  }

  lemma SmallerArgument(a: Item, b: Item)
    requires KeyInRange(a) && KeyInRange(b) && Major(a) == Major(b) && Argument(a) < Argument(b)
    ensures Less(Print(a), Print(b)) && |Print(a)| <= |Print(b)|
  {
    hide Print, Head, Less;
    PrintKey(a);
    PrintKey(b);
    HeadOrder(Major(a), Argument(a), Argument(b));
    DecidedExtends(Head(Major(a), Argument(a)), Head(Major(b), Argument(b)), Payload(a), Payload(b));
  }

  /** Both orders rank two keys of one major type alike. */
  lemma OrdersAgree(a: Item, b: Item)
    requires KeyInRange(a) && KeyInRange(b) && Major(a) == Major(b)
    ensures ShorterOrLess(Print(a), Print(b)) <==> Less(Print(a), Print(b))
  {
    hide Print, Less;
    LessTrichotomy(Print(a), Print(b));
    if Argument(a) < Argument(b) {
      SmallerArgument(a, b);
    } else if Argument(b) < Argument(a) {
      SmallerArgument(b, a);
    } else {
      PrintKey(a);
      PrintKey(b);
    }
  }

  /** A smaller major type gives a smaller first byte. */
  lemma SmallerMajor(a: Item, b: Item)
    requires KeyInRange(a) && KeyInRange(b) && Major(a) < Major(b)
    ensures Less(Print(a), Print(b))
  {
    hide BigEndian;
    PrintKey(a);
    PrintKey(b);
  }

  predicate Alike(a: bytes, b: bytes) {
    && (KeyOrder(true, a, b) <==> KeyOrder(false, a, b))
    && (KeyOrder(true, b, a) <==> KeyOrder(false, b, a))
  }

  /** One major type, or the key of the smaller type is no longer than the other. */
  predicate RankedAlike(a: Item, b: Item) {
    || Major(a) == Major(b)
    || (Major(a) < Major(b) && |Print(a)| <= |Print(b)|)
    || (Major(b) < Major(a) && |Print(b)| <= |Print(a)|)
  }

  /** The exact condition on two keys. */
  lemma OrdersAgreeIff(a: Item, b: Item)
    requires KeyInRange(a) && KeyInRange(b)
    ensures Alike(Print(a), Print(b)) <==> RankedAlike(a, b)
  {
    hide Print, Less;
    LessTrichotomy(Print(a), Print(b));
    if Major(a) == Major(b) {
      OrdersAgree(a, b);
      OrdersAgree(b, a);
    } else if Major(a) < Major(b) {
      SmallerMajor(a, b);
    } else {
      SmallerMajor(b, a);
    }
  }

  /** Across major types they need not agree: 24 and the empty byte string are ranked oppositely. */
  lemma OrdersDisagreeAcrossTypes()
    ensures var a, b := Print(Unsigned(24)), Print(Bytes([]));
      Less(a, b) && !ShorterOrLess(a, b) && ShorterOrLess(b, a)
  {
    var a, b := Print(Unsigned(24)), Print(Bytes([]));
    assert a[0] == 24 && b[0] == 64 && |a| == 2 && |b| == 1;
  }

  // ----- hence the two encoders

  /** In every map, both orders rank every two keys alike. */
  ghost predicate RankAlike(v: Item)
    decreases v
  {
    match v
    case Array(xs) => forall x :: x in xs ==> RankAlike(x)
    case Map(es) =>
      && (forall e :: e in es ==> RankAlikeIn(e))
      && (forall e, f :: e in es && f in es ==> RankedAlike(e.key, f.key))
    case _ => true
  }

  ghost predicate RankAlikeIn(e: Entry)
    decreases e
  {
    RankAlike(e.value)
  }

  ghost predicate ScalarKeys(v: Item)
    decreases v
  {
    match v
    case Array(xs) => forall x :: x in xs ==> ScalarKeys(x)
    case Map(es) => forall e :: e in es ==> ScalarKey(e)
    case _ => true
  }

  ghost predicate ScalarKey(e: Entry)
    decreases e
  {
    KeyInRange(e.key) && ScalarKeys(e.value)
  }

  ghost predicate OrderedAlike(p: Pair, ps: seq<Pair>) {
    forall q :: q in ps ==> Alike(p.key, q.key)
  }

  lemma {:induction false} InsertsAgree(p: Pair, ps: seq<Pair>)
    requires OrderedAlike(p, ps)
    ensures Insert(true, p, ps) == Insert(false, p, ps)
    decreases |ps|
  {
    hide KeyOrder;
    if |ps| > 0 {
      assert ps[0] in ps;
      InsertsAgree(p, ps[1..]);
    }
  }

  ghost predicate AllOrderedAlike(ps: seq<Pair>) {
    |ps| > 0 ==> OrderedAlike(ps[0], ps[1..]) && AllOrderedAlike(ps[1..])
  }

  lemma {:induction false} SortsAgree(ps: seq<Pair>)
    requires AllOrderedAlike(ps)
    ensures Sort(true, ps) == Sort(false, ps)
    decreases |ps|
  {
    hide KeyOrder, Insert;
    if |ps| > 0 {
      SortsAgree(ps[1..]);
      var sorted := Sort(true, ps[1..]);
      forall q | q in sorted ensures q in ps[1..] {
        assert q in multiset(sorted);
      }
      InsertsAgree(ps[0], sorted);
    }
  }

  // ----- agreement: the sorts do the same

  lemma {:induction false} SameWhenAlike(v: Item)
    requires ScalarKeys(v) && RankAlike(v)
    ensures Encode(true, v) == Encode(false, v)
    decreases v
  {
    hide Print, Head, Sort, RankedAlike;
    match v {
      case Array(xs) => SameWhenAllAlike(xs);
      case Map(es) =>
        SameEntriesWhenAlike(es);
        SortsAgree(EncodePairs(true, es));
      case _ =>
    }
  }

  lemma {:induction false} SameWhenAllAlike(xs: seq<Item>)
    requires forall x :: x in xs ==> ScalarKeys(x) && RankAlike(x)
    ensures EncodeAll(true, xs) == EncodeAll(false, xs)
    decreases xs
  {
    hide Encode, ScalarKeys, RankAlike;
    if |xs| > 0 {
      assert xs[0] in xs;
      SameWhenAlike(xs[0]);
      SameWhenAllAlike(xs[1..]);
    }
  }

  lemma {:induction false} SameEntryWhenAlike(e: Entry)
    requires ScalarKey(e) && RankAlikeIn(e)
    ensures EncodePair(true, e) == EncodePair(false, e) && EncodePair(true, e).key == Print(e.key)
    decreases e
  {
    hide Print, ScalarKeys, RankAlike;
    SameWhenAlike(e.value);
  }

  lemma {:induction false} SameEntriesWhenAlike(es: seq<Entry>)
    requires forall e :: e in es ==> ScalarKey(e) && RankAlikeIn(e)
    requires forall e, f :: e in es && f in es ==> RankedAlike(e.key, f.key)
    ensures EncodePairs(true, es) == EncodePairs(false, es) && AllOrderedAlike(EncodePairs(true, es))
    ensures forall i :: 0 <= i < |es| ==> EncodePairs(true, es)[i].key == Print(es[i].key)
    decreases es
  {
    hide Print, ScalarKeys, RankAlike, Encode, Alike, RankedAlike;
    if |es| > 0 {
      var e, rest := es[0], es[1..];
      assert e in es;
      SameEntryWhenAlike(e);
      SameEntriesWhenAlike(rest);
      var ps := EncodePairs(true, rest);
      assert EncodePairs(true, es)[1..] == ps;
      forall q | q in ps ensures Alike(Print(e.key), q.key) {
        var i :| 0 <= i < |ps| && ps[i] == q;
        assert rest[i] in rest;
        OrdersAgreeIff(e.key, rest[i].key);
      }
    }
  }

  // ----- and conversely: equal encodings, equal canonical forms, keys ranked alike

  lemma {:induction false} CanonAllAt(shorterFirst: bool, xs: seq<Item>, i: nat)
    requires i < |xs|
    ensures CanonAll(shorterFirst, xs)[i] == Canon(shorterFirst, xs[i])
    decreases i
  {
    hide Canon;
    if i > 0 {
      CanonAllAt(shorterFirst, xs[1..], i - 1);
    }
  }

  lemma {:induction false} CanonEntriesAt(shorterFirst: bool, es: seq<Entry>, i: nat)
    requires i < |es|
    ensures CanonEntries(shorterFirst, es)[i] == CanonEntry(shorterFirst, es[i])
    decreases i
  {
    hide CanonEntry;
    if i > 0 {
      CanonEntriesAt(shorterFirst, es[1..], i - 1);
    }
  }

  /** The sorted canonical entries of a dictionary: in strict order, and each still with its key. */
  lemma SortedCanon(shorterFirst: bool, es: seq<Entry>)
    requires DistinctKeys(es) && forall e :: e in es ==> PythonEntry(e)
    ensures StrictlySorted(shorterFirst, SortEntries(shorterFirst, CanonEntries(shorterFirst, es)))
    ensures forall i :: 0 <= i < |es| ==> CanonEntries(shorterFirst, es)[i].key == es[i].key
  {
    hide SortEntries, StrictlySorted, PythonEntry, FitsEntry, CanonEntries;
    var p := FREE.(shorterFirst := shorterFirst);
    forall e | e in es ensures FitsEntry(p, 0, e) {
      EntryAlwaysFits(p, 0, e);
    }
    CanonEntriesAdmitted(p, 0, es);
    SortIsStrict(p, 0, CanonEntries(shorterFirst, es));
  }

  ghost predicate SameSorted(es: seq<Entry>) {
    SortEntries(true, CanonEntries(true, es)) == SortEntries(false, CanonEntries(false, es))
  }

  /** The same sorted entries: then each entry has the same canonical form in both orders. */
  lemma SameEntry(es: seq<Entry>, i: nat)
    requires DistinctKeys(es) && (forall e :: e in es ==> PythonEntry(e)) && SameSorted(es) && i < |es|
    ensures CanonEntry(true, es[i]) == CanonEntry(false, es[i])
  {
    hide SortEntries, StrictlySorted, PythonEntry, CanonEntry, DistinctKeys;
    var c, d := CanonEntries(true, es), CanonEntries(false, es);
    SortedCanon(true, es);
    SortedCanon(false, es);
    SortMembers(true, c);
    SortMembers(false, d);
    assert c[i] in d;
    var j :| 0 <= j < |d| && d[j] == c[i];
    if i != j {
      DistinctIndices(es, i, j);
    }
    CanonEntriesAt(true, es, i);
    CanonEntriesAt(false, es, i);
  }

  /** And every two keys are ranked alike. */
  lemma SameRanks(es: seq<Entry>, e: Entry, f: Entry)
    requires DistinctKeys(es) && (forall g :: g in es ==> PythonEntry(g)) && SameSorted(es)
    requires e in es && f in es && KeyInRange(e.key) && KeyInRange(f.key)
    ensures RankedAlike(e.key, f.key)
  {
    hide SortEntries, StrictlySorted, PythonEntry, CanonEntry, DistinctKeys, Print, KeyOrder, KeyInRange;
    var r := SortEntries(true, CanonEntries(true, es));
    SortedCanon(true, es);
    SortedCanon(false, es);
    var a := PlaceOfKey(es, e);
    var b := PlaceOfKey(es, f);
    if a < b {
      SortedPairwise(true, r, a, b);
      SortedPairwise(false, r, a, b);
      RanksFromOrders(e.key, f.key);
    } else if b < a {
      SortedPairwise(true, r, b, a);
      SortedPairwise(false, r, b, a);
      RanksFromOrders(f.key, e.key);
    }
  }

  lemma PlaceOfKey(es: seq<Entry>, e: Entry) returns (k: nat)
    requires DistinctKeys(es) && (forall g :: g in es ==> PythonEntry(g)) && e in es
    ensures var r := SortEntries(true, CanonEntries(true, es)); k < |r| && r[k].key == e.key
  {
    hide SortEntries, StrictlySorted, PythonEntry, CanonEntry, DistinctKeys;
    var c := CanonEntries(true, es);
    SortedCanon(true, es);
    SortMembers(true, c);
    var i :| 0 <= i < |es| && es[i] == e;
    assert c[i] in SortEntries(true, c);
    k :| 0 <= k < |SortEntries(true, c)| && SortEntries(true, c)[k] == c[i];
  }

  lemma RanksFromOrders(a: Item, b: Item)
    requires KeyInRange(a) && KeyInRange(b)
    requires KeyOrder(true, Print(a), Print(b)) && KeyOrder(false, Print(a), Print(b))
    ensures RankedAlike(a, b) && RankedAlike(b, a)
  {
    hide Print, KeyOrder, KeyInRange;
    OrderTrichotomy(true, Print(a), Print(b));
    OrderTrichotomy(false, Print(a), Print(b));
    OrdersAgreeIff(a, b);
  }

  lemma {:induction false} AlikeWhenSame(v: Item)
    requires PythonValue(v) && ScalarKeys(v) && Canon(true, v) == Canon(false, v)
    ensures RankAlike(v)
    decreases v
  {
    hide SortEntries, CanonAll, CanonEntries, RankedAlike, DistinctKeys, ValidUtf8, KeyInRange;
    match v {
      case Array(xs) =>
        forall x | x in xs ensures RankAlike(x) {
          var i :| 0 <= i < |xs| && xs[i] == x;
          CanonAllAt(true, xs, i);
          CanonAllAt(false, xs, i);
          AlikeWhenSame(x);
        }
      case Map(es) =>
        assert SameSorted(es);
        forall e | e in es ensures RankAlikeIn(e) {
          var i :| 0 <= i < |es| && es[i] == e;
          SameEntry(es, i);
          AlikeWhenSameIn(e);
        }
        forall e, f | e in es && f in es ensures RankedAlike(e.key, f.key) {
          SameRanks(es, e, f);
        }
      case _ =>
    }
  }

  lemma {:induction false} AlikeWhenSameIn(e: Entry)
    requires PythonEntry(e) && ScalarKey(e) && CanonEntry(true, e) == CanonEntry(false, e)
    ensures RankAlikeIn(e)
    decreases e
  {
    hide Canon, PythonValue, ScalarKeys, RankAlike;
    AlikeWhenSame(e.value);
  }

  // ----- the exact condition

  lemma {:induction false} WriterKeysAreScalar(depth: nat, v: Item)
    requires PythonValue(v) && Fits(WRITER, depth, v)
    ensures ScalarKeys(v)
    decreases v
  {
    hide ValidUtf8, DistinctKeys;
    match v {
      case Array(xs) =>
        forall x | x in xs ensures ScalarKeys(x) {
          WriterKeysAreScalar(depth + 1, x);
        }
      case Map(es) =>
        forall e | e in es ensures ScalarKey(e) {
          WriterKeyIsScalar(depth + 1, e);
        }
      case _ =>
    }
  }

  lemma {:induction false} WriterKeyIsScalar(depth: nat, e: Entry)
    requires PythonEntry(e) && FitsEntry(WRITER, depth, e)
    ensures ScalarKey(e)
    decreases e
  {
    hide ValidUtf8, ScalarKeys;
    WriterKeysAreScalar(depth, e.value);
  }

  /** Both tools write the same bytes exactly when the object tool takes the value and all its keys rank alike. */
  lemma EncodersAgreeIff(v: Item)
    requires PythonValue(v)
    ensures EncodeObject(v) == Some(Encode(true, v)) <==> Fits(WRITER, 0, v) && RankAlike(v)
  {
    hide Encode, Print, Canon, Admits, PythonValue, Fits, ScalarKeys, RankAlike;
    if Fits(WRITER, 0, v) {
      WriterKeysAreScalar(0, v);
      if RankAlike(v) {
        SameWhenAlike(v);
      } else if Encode(true, v) == Encode(false, v) {
        EncodeIsPrintCanon(true, v);
        EncodeIsPrintCanon(false, v);
        CanonAdmittedFreely(true, v);
        CanonAdmittedFreely(false, v);
        PrintInjective(FREE, 0, Canon(true, v), Canon(false, v));
        AlikeWhenSame(v);
      }
    }
  }

  /** A dictionary that both tools take and write differently: {24: 0, b"": 0}. */
  lemma EncodersDisagree()
    ensures var v := Map([Entry(Unsigned(24), Unsigned(0)), Entry(Bytes([]), Unsigned(0))]);
      PythonValue(v) && EncodeObject(v).Some? && EncodeObject(v).value != Encode(true, v)
  {
    hide Encode, Canon;
    var e, f := Entry(Unsigned(24), Unsigned(0)), Entry(Bytes([]), Unsigned(0));
    var v := Map([e, f]);
    assert PythonEntry(e) && PythonEntry(f) && FitsEntry(WRITER, 1, e) && FitsEntry(WRITER, 1, f);
    assert DistinctKeys([f]) && DistinctKeys([e, f]);
    assert e in v.entries && f in v.entries && !RankedAlike(e.key, f.key);
    EncodersAgreeIff(v);
  }
}
