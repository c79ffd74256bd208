/**
  The two Python encoders of deterministic CBOR, and the canonical forms they write.

  A Python dictionary is a `Map` whose entries stand in insertion order. The parity
  tool sorts encoded keys by length and then bytewise, the object tool bytewise only;
  `shorterFirst` selects the order.
 */
module PythonCbor {
  import opened Bits
  import opened Outcomes
  import opened ByteStrings
  import opened Utf8
  import opened Cbor

  // ----- the order of encoded keys

  lemma OrderTrichotomy(shorterFirst: bool, a: bytes, b: bytes)
    ensures KeyOrder(shorterFirst, a, b) || a == b || KeyOrder(shorterFirst, b, a)
    ensures !KeyOrder(shorterFirst, a, a)
    ensures !(KeyOrder(shorterFirst, a, b) && KeyOrder(shorterFirst, b, a))
  {
    LessTrichotomy(a, b);
  }

  lemma OrderTransitive(shorterFirst: bool, a: bytes, b: bytes, c: bytes)
    requires KeyOrder(shorterFirst, a, b) && KeyOrder(shorterFirst, b, c)
    ensures KeyOrder(shorterFirst, a, c)
  {
    if Less(a, b) && Less(b, c) {
      LessTransitive(a, b, c);
    }
  }

  // ----- the encoders

  datatype Pair = Pair(key: bytes, value: bytes)

  /** `encode_deterministic_cbor` and `cbor`: encode the entries, sort them by encoded key, join. */
  function Encode(shorterFirst: bool, v: Item): bytes
    decreases v
  {
    match v
    case Array(xs) => Head(4, |xs|) + EncodeAll(shorterFirst, xs)
    case Map(es) => Head(5, |es|) + Join(Sort(shorterFirst, EncodePairs(shorterFirst, es)))
    case _ => Print(v)
  }

  function EncodeAll(shorterFirst: bool, xs: seq<Item>): bytes
    decreases xs
  {
    if |xs| == 0 then [] else Encode(shorterFirst, xs[0]) + EncodeAll(shorterFirst, xs[1..])
  }

  function EncodePair(shorterFirst: bool, e: Entry): Pair
    decreases e
  {
    Pair(Encode(shorterFirst, e.key), Encode(shorterFirst, e.value))
  }

  function EncodePairs(shorterFirst: bool, es: seq<Entry>): (ps: seq<Pair>)
    ensures |ps| == |es|
    decreases es
  {
    if |es| == 0 then [] else [EncodePair(shorterFirst, es[0])] + EncodePairs(shorterFirst, es[1..])
  }

  function Join(ps: seq<Pair>): bytes {
    if |ps| == 0 then [] else ps[0].key + ps[0].value + Join(ps[1..])
  }

  function Sort(shorterFirst: bool, ps: seq<Pair>): (r: seq<Pair>)
    ensures multiset(r) == multiset(ps)
  {
    if |ps| == 0 then [] else
      assert ps == [ps[0]] + ps[1..];
      Insert(shorterFirst, ps[0], Sort(shorterFirst, ps[1..]))
  }

  /** Before every pair that must follow it, after the others. */
  function Insert(shorterFirst: bool, p: Pair, ps: seq<Pair>): (r: seq<Pair>)
    ensures multiset(r) == multiset{p} + multiset(ps)
  {
    if |ps| == 0 then [p]
    else if !KeyOrder(shorterFirst, ps[0].key, p.key) then [p] + ps
    else
      assert ps == [ps[0]] + ps[1..];
      [ps[0]] + Insert(shorterFirst, p, ps[1..])
  }

  // ----- the canonical form: every dictionary in the order of its encoded keys

  function Canon(shorterFirst: bool, v: Item): Item
    decreases v
  {
    match v
    case Array(xs) => Array(CanonAll(shorterFirst, xs))
    case Map(es) => Map(SortEntries(shorterFirst, CanonEntries(shorterFirst, es)))
    case _ => v
  }

  function CanonAll(shorterFirst: bool, xs: seq<Item>): (r: seq<Item>)
    ensures |r| == |xs|
    decreases xs
  {
    if |xs| == 0 then [] else [Canon(shorterFirst, xs[0])] + CanonAll(shorterFirst, xs[1..])
  }

  function CanonEntry(shorterFirst: bool, e: Entry): Entry
    decreases e
  {
    Entry(Canon(shorterFirst, e.key), Canon(shorterFirst, e.value))
  }

  function CanonEntries(shorterFirst: bool, es: seq<Entry>): (r: seq<Entry>)
    ensures |r| == |es|
    decreases es
  {
    if |es| == 0 then [] else [CanonEntry(shorterFirst, es[0])] + CanonEntries(shorterFirst, es[1..])
  }

  /** The same entries, reordered. */
  function SortEntries(shorterFirst: bool, es: seq<Entry>): (r: seq<Entry>)
    ensures multiset(r) == multiset(es) && |r| == |es|
  {
    if |es| == 0 then [] else
      assert es == [es[0]] + es[1..];
      InsertEntry(shorterFirst, es[0], SortEntries(shorterFirst, es[1..]))
  }

  function InsertEntry(shorterFirst: bool, e: Entry, es: seq<Entry>): (r: seq<Entry>)
    ensures multiset(r) == multiset{e} + multiset(es) && |r| == |es| + 1
  {
    if |es| == 0 then [e]
    else if !KeyOrder(shorterFirst, Print(es[0].key), Print(e.key)) then [e] + es
    else
      assert es == [es[0]] + es[1..];
      [es[0]] + InsertEntry(shorterFirst, e, es[1..])
  }

  function PairOf(e: Entry): Pair {
    Pair(Print(e.key), Print(e.value))
  }

  function Pairs(es: seq<Entry>): (ps: seq<Pair>)
    ensures |ps| == |es|
  {
    if |es| == 0 then [] else [PairOf(es[0])] + Pairs(es[1..])
  }

  lemma {:induction false} JoinPairs(es: seq<Entry>)
    ensures Join(Pairs(es)) == PrintEntries(es)
  {
    hide Print;
    if |es| > 0 {
      JoinPairs(es[1..]);
      assert Pairs(es)[1..] == Pairs(es[1..]);
    }
  }

  lemma {:induction false} InsertPairs(shorterFirst: bool, e: Entry, es: seq<Entry>)
    ensures Insert(shorterFirst, PairOf(e), Pairs(es)) == Pairs(InsertEntry(shorterFirst, e, es))
    decreases |es|
  {
    hide Print, KeyOrder;
    if |es| > 0 {
      assert Pairs(es)[1..] == Pairs(es[1..]);
      InsertPairs(shorterFirst, e, es[1..]);
      var r := InsertEntry(shorterFirst, e, es);
      assert r[1..] == if !KeyOrder(shorterFirst, Print(es[0].key), Print(e.key)) then es
                       else InsertEntry(shorterFirst, e, es[1..]);
    } else {
      assert [e][1..] == [];
      assert Pairs([e]) == [PairOf(e)] + Pairs([]);
    }
  }

  lemma {:induction false} SortPairs(shorterFirst: bool, es: seq<Entry>)
    ensures Sort(shorterFirst, Pairs(es)) == Pairs(SortEntries(shorterFirst, es))
    decreases |es|
  {
    hide Insert, InsertEntry, PairOf;
    if |es| > 0 {
      assert Pairs(es)[1..] == Pairs(es[1..]);
      SortPairs(shorterFirst, es[1..]);
      InsertPairs(shorterFirst, es[0], SortEntries(shorterFirst, es[1..]));
    }
  }

  /** Encoding prints the canonical form. */
  lemma {:induction false} EncodeIsPrintCanon(shorterFirst: bool, v: Item)
    ensures Encode(shorterFirst, v) == Print(Canon(shorterFirst, v))
    decreases v
  {
    hide Head, Sort, SortEntries;
    match v {
      case Array(xs) => EncodeAllIsPrintCanon(shorterFirst, xs);
      case Map(es) =>
        EncodePairsIsPairsCanon(shorterFirst, es);
        SortPairs(shorterFirst, CanonEntries(shorterFirst, es));
        JoinPairs(SortEntries(shorterFirst, CanonEntries(shorterFirst, es)));
      case _ =>
    }
  }

  lemma {:induction false} EncodeAllIsPrintCanon(shorterFirst: bool, xs: seq<Item>)
    ensures EncodeAll(shorterFirst, xs) == PrintAll(CanonAll(shorterFirst, xs))
    decreases xs
  {
    hide Print, Encode, Canon;
    if |xs| > 0 {
      EncodeIsPrintCanon(shorterFirst, xs[0]);
      EncodeAllIsPrintCanon(shorterFirst, xs[1..]);
      assert CanonAll(shorterFirst, xs)[1..] == CanonAll(shorterFirst, xs[1..]);
    }
  }

  lemma {:induction false} EncodePairIsPairCanon(shorterFirst: bool, e: Entry)
    ensures EncodePair(shorterFirst, e) == PairOf(CanonEntry(shorterFirst, e))
    decreases e
  {
    EncodeIsPrintCanon(shorterFirst, e.key);
    EncodeIsPrintCanon(shorterFirst, e.value);
  }

  lemma {:induction false} EncodePairsIsPairsCanon(shorterFirst: bool, es: seq<Entry>)
    ensures EncodePairs(shorterFirst, es) == Pairs(CanonEntries(shorterFirst, es))
    decreases es
  {
    hide EncodePair, PairOf, CanonEntry;
    if |es| > 0 {
      EncodePairIsPairCanon(shorterFirst, es[0]);
      EncodePairsIsPairsCanon(shorterFirst, es[1..]);
      assert CanonEntries(shorterFirst, es)[1..] == CanonEntries(shorterFirst, es[1..]);
    }
  }

  // ----- what a decoder accepts is already canonical

  lemma {:induction false} AdmittedIsCanon(p: Profile, depth: nat, v: Item)
    requires !p.keys.Unordered? && Admits(p, depth, v)
    ensures Canon(p.shorterFirst, v) == v
    decreases v
  {
    hide SortEntries, ValidUtf8;
    match v {
      case Array(xs) => AdmittedAllIsCanon(p, depth + 1, xs);
      case Map(es) => AdmittedEntriesAreCanon(p, depth + 1, es, []);
      case _ =>
    }
  }

  lemma {:induction false} AdmittedAllIsCanon(p: Profile, depth: nat, xs: seq<Item>)
    requires !p.keys.Unordered? && AdmitsAll(p, depth, xs)
    ensures CanonAll(p.shorterFirst, xs) == xs
    decreases xs
  {
    if |xs| > 0 {
      AdmittedIsCanon(p, depth, xs[0]);
      AdmittedAllIsCanon(p, depth, xs[1..]);
    }
  }

  lemma {:induction false} AdmittedEntryIsCanon(p: Profile, depth: nat, e: Entry)
    requires !p.keys.Unordered? && AdmitsEntry(p, depth, e)
    ensures CanonEntry(p.shorterFirst, e) == e
    decreases e
  {
    AdmittedIsCanon(p, depth, e.key);
    AdmittedIsCanon(p, depth, e.value);
  }

  lemma {:induction false} AdmittedEntriesAreCanon(p: Profile, depth: nat, es: seq<Entry>, earlier: seq<Item>)
    requires !p.keys.Unordered? && AdmitsEntries(p, depth, es, earlier)
    ensures CanonEntries(p.shorterFirst, es) == es && SortEntries(p.shorterFirst, es) == es
    decreases es
  {
    hide Print, KeyOrder, CanonEntry, KeyAllowed, AdmitsEntry;
    if |es| > 0 {
      var e, rest := es[0], es[1..];
      AdmittedEntryIsCanon(p, depth, e);
      AdmittedEntriesAreCanon(p, depth, rest, earlier + [e.key]);
      if |rest| > 0 {
        OrderTrichotomy(p.shorterFirst, Print(e.key), Print(rest[0].key));
      }
      assert es == [e] + rest;
    }
  }

  // ----- Python values, and their canonical forms

  /** No two keys that Python would take for one. */
  ghost predicate DistinctFrom(key: Item, es: seq<Entry>) {
    forall e :: e in es ==> PythonIdentity(e.key) != PythonIdentity(key)
  }

  ghost predicate DistinctKeys(es: seq<Entry>) {
    |es| > 0 ==> DistinctFrom(es[0].key, es[1..]) && DistinctKeys(es[1..])
  }

  /** What Python can hash: scalars, and tuples of such keys. */
  ghost predicate KeyLike(key: Item)
    decreases key
  {
    match key
    case Array(xs) => forall x :: x in xs ==> KeyLike(x)
    case Map(_) => false
    case _ => true
  }

  /** What Python can hold and the encoder of the parity tool takes; a list or a tuple is an `Array`. */
  ghost predicate PythonValue(v: Item)
    decreases v
  {
    match v
    case Unsigned(n) => n < U64_LIMIT
    case Negative(n) => n < U64_LIMIT
    case Bytes(b) => |b| < U64_LIMIT
    case Text(b) => |b| < U64_LIMIT && ValidUtf8(b)
    case Array(xs) => |xs| < U64_LIMIT && forall x :: x in xs ==> PythonValue(x)
    case Map(es) => |es| < U64_LIMIT && DistinctKeys(es) && forall e :: e in es ==> PythonEntry(e)
    case Simple(code) => 20 <= code <= 22
  }

  ghost predicate PythonEntry(e: Entry)
    decreases e
  {
    KeyLike(e.key) && PythonValue(e.key) && PythonValue(e.value)
  }

  /** The value keeps to a profile's depth limit, signs and kinds of key. */
  predicate Fits(p: Profile, depth: nat, v: Item)
    decreases v
  {
    && DepthOk(p, depth)
    && match v
       case Negative(_) => p.negatives
       case Array(xs) => forall x :: x in xs ==> Fits(p, depth + 1, x)
       case Map(es) => forall e :: e in es ==> FitsEntry(p, depth + 1, e)
       case _ => true
  }

  predicate FitsEntry(p: Profile, depth: nat, e: Entry)
    decreases e
  {
    (p.keys.PythonKey? ==> Hashable(e.key)) && Fits(p, depth, e.key) && Fits(p, depth, e.value)
  }

  ghost predicate StrictlySorted(shorterFirst: bool, es: seq<Entry>) {
    |es| > 1 ==>
      KeyOrder(shorterFirst, Print(es[0].key), Print(es[1].key)) && StrictlySorted(shorterFirst, es[1..])
  }

  lemma {:induction false} SortedPairwise(shorterFirst: bool, es: seq<Entry>, i: nat, j: nat)
    requires StrictlySorted(shorterFirst, es) && i < j < |es|
    ensures KeyOrder(shorterFirst, Print(es[i].key), Print(es[j].key))
    decreases |es|, j
  {
    hide Print, KeyOrder;
    if i > 0 {
      SortedPairwise(shorterFirst, es[1..], i - 1, j - 1);
    } else if j > 1 {
      SortedPairwise(shorterFirst, es[1..], 0, j - 1);
      OrderTransitive(shorterFirst, Print(es[0].key), Print(es[1].key), Print(es[j].key));
    }
  }

  lemma {:induction false} DistinctIndices(es: seq<Entry>, i: nat, j: nat)
    requires DistinctKeys(es) && i < |es| && j < |es| && i != j
    ensures es[i].key != es[j].key
    decreases |es|
  {
    hide PythonIdentity;
    if i > 0 && j > 0 {
      DistinctIndices(es[1..], i - 1, j - 1);
    } else {
      var k := if i > 0 then i else j;
      assert es[1..][k - 1] == es[k];
    }
  }

  lemma {:induction false} InsertKeepsSorted(shorterFirst: bool, e: Entry, es: seq<Entry>)
    requires StrictlySorted(shorterFirst, es) && forall f :: f in es ==> Print(f.key) != Print(e.key)
    ensures StrictlySorted(shorterFirst, InsertEntry(shorterFirst, e, es))
    ensures InsertEntry(shorterFirst, e, es)[0] == e || (|es| > 0 && InsertEntry(shorterFirst, e, es)[0] == es[0])
    decreases |es|
  {
    hide Print, KeyOrder;
    var r := InsertEntry(shorterFirst, e, es);
    if |es| == 0 {
    } else if !KeyOrder(shorterFirst, Print(es[0].key), Print(e.key)) {
      OrderTrichotomy(shorterFirst, Print(e.key), Print(es[0].key));
      assert r[1..] == es;
    } else {
      InsertKeepsSorted(shorterFirst, e, es[1..]);
      assert r[1..] == InsertEntry(shorterFirst, e, es[1..]);
    }
  }

  lemma {:induction false} InsertKeepsDistinct(shorterFirst: bool, e: Entry, es: seq<Entry>)
    requires DistinctKeys(es) && DistinctFrom(e.key, es)
    ensures DistinctKeys(InsertEntry(shorterFirst, e, es))
    decreases |es|
  {
    hide Print, KeyOrder;
    var r := InsertEntry(shorterFirst, e, es);
    if |es| == 0 {
    } else if !KeyOrder(shorterFirst, Print(es[0].key), Print(e.key)) {
      assert r[1..] == es;
    } else {
      InsertKeepsDistinct(shorterFirst, e, es[1..]);
      var tail := InsertEntry(shorterFirst, e, es[1..]);
      assert r[1..] == tail;
      forall f | f in tail ensures PythonIdentity(f.key) != PythonIdentity(es[0].key) {
        assert f in multiset(tail);
      }
    }
  }

  lemma SortMembers(shorterFirst: bool, es: seq<Entry>)
    ensures forall e :: e in SortEntries(shorterFirst, es) <==> e in es
  {
    hide SortEntries;
    var r := SortEntries(shorterFirst, es);
    forall e ensures e in r <==> e in es {
      assert e in r <==> e in multiset(r);
      assert e in es <==> e in multiset(es);
    }
  }

  /** Keys that Python tells apart print differently. */
  lemma DistinctKeysPrintApart(p: Profile, depth: nat, a: Item, b: Item)
    requires p.maxItems.None?
    requires Admits(p, depth, a) && Admits(p, depth, b) && PythonIdentity(a) != PythonIdentity(b)
    ensures Print(a) != Print(b)
  {
    hide Print, Admits, PythonIdentity;
    if Print(a) == Print(b) {
      PrintInjective(p, depth, a, b);
    }
  }

  ghost predicate AdmittedKeys(p: Profile, depth: nat, es: seq<Entry>) {
    forall e :: e in es ==> (p.keys.PythonKey? ==> Hashable(e.key)) && AdmitsEntry(p, depth, e)
  }

  lemma {:induction false} SortIsStrict(p: Profile, depth: nat, es: seq<Entry>)
    requires p.maxItems.None? && DistinctKeys(es) && AdmittedKeys(p, depth, es)
    ensures var r := SortEntries(p.shorterFirst, es); StrictlySorted(p.shorterFirst, r) && DistinctKeys(r)
    decreases |es|
  {
    hide Print, InsertEntry, Admits, PythonIdentity;
    if |es| > 0 {
      var e, rest := es[0], es[1..];
      SortIsStrict(p, depth, rest);
      SortMembers(p.shorterFirst, rest);
      var sorted := SortEntries(p.shorterFirst, rest);
      forall f | f in sorted ensures Print(f.key) != Print(e.key) {
        DistinctKeysPrintApart(p, depth, f.key, e.key);
      }
      InsertKeepsSorted(p.shorterFirst, e, sorted);
      InsertKeepsDistinct(p.shorterFirst, e, sorted);
    }
  }

  /** Entries in strict order are admitted one after another. */
  lemma {:induction false} AdmitsSorted(p: Profile, depth: nat, es: seq<Entry>, earlier: seq<Item>)
    requires !p.keys.IntegerKey? && AdmittedKeys(p, depth, es)
    requires StrictlySorted(p.shorterFirst, es) && DistinctKeys(es)
    requires forall i :: 0 <= i < |earlier| ==> DistinctFrom(earlier[i], es)
    requires |es| > 0 && |earlier| > 0 ==> KeyOrder(p.shorterFirst, Print(earlier[|earlier| - 1]), Print(es[0].key))
    ensures AdmitsEntries(p, depth, es, earlier)
    decreases |es|
  {
    hide Print, Admits, PythonIdentity;
    if |es| > 0 {
      var e, rest := es[0], es[1..];
      assert e in es;
      AdmitsSorted(p, depth, rest, earlier + [e.key]);
    }
  }

  lemma {:induction false} KeyIsCanon(shorterFirst: bool, key: Item)
    requires KeyLike(key)
    ensures Canon(shorterFirst, key) == key
    decreases key
  {
    if key.Array? {
      KeysAreCanon(shorterFirst, key.items);
    }
  }

  lemma {:induction false} KeysAreCanon(shorterFirst: bool, keys: seq<Item>)
    requires forall x :: x in keys ==> KeyLike(x)
    ensures CanonAll(shorterFirst, keys) == keys
    decreases keys
  {
    hide Canon, KeyLike;
    if |keys| > 0 {
      assert keys[0] in keys;
      KeyIsCanon(shorterFirst, keys[0]);
      KeysAreCanon(shorterFirst, keys[1..]);
    }
  }

  /** The canonical form of a Python value that keeps to a profile is admitted. */
  lemma {:induction false} CanonIsAdmitted(p: Profile, depth: nat, v: Item)
    requires !p.keys.IntegerKey? && p.maxItems.None? && PythonValue(v) && Fits(p, depth, v)
    ensures Admits(p, depth, Canon(p.shorterFirst, v))
    decreases v
  {
    hide SortEntries, ValidUtf8, DistinctKeys, StrictlySorted;
    match v {
      case Array(xs) => CanonAllAdmitted(p, depth + 1, xs);
      case Map(es) =>
        CanonEntriesAdmitted(p, depth + 1, es);
        var canon := CanonEntries(p.shorterFirst, es);
        SortIsStrict(p, depth + 1, canon);
        SortMembers(p.shorterFirst, canon);
        AdmitsSorted(p, depth + 1, SortEntries(p.shorterFirst, canon), []);
      case _ =>
    }
  }

  lemma {:induction false} CanonAllAdmitted(p: Profile, depth: nat, xs: seq<Item>)
    requires !p.keys.IntegerKey? && p.maxItems.None? && forall x :: x in xs ==> PythonValue(x) && Fits(p, depth, x)
    ensures AdmitsAll(p, depth, CanonAll(p.shorterFirst, xs))
    decreases xs
  {
    hide Admits, Canon, PythonValue, Fits;
    if |xs| > 0 {
      assert xs[0] in xs;
      CanonIsAdmitted(p, depth, xs[0]);
      CanonAllAdmitted(p, depth, xs[1..]);
      assert CanonAll(p.shorterFirst, xs)[1..] == CanonAll(p.shorterFirst, xs[1..]);
    }
  }

  lemma {:induction false} CanonEntryAdmitted(p: Profile, depth: nat, e: Entry)
    requires !p.keys.IntegerKey? && p.maxItems.None? && PythonEntry(e) && FitsEntry(p, depth, e)
    ensures AdmitsEntry(p, depth, CanonEntry(p.shorterFirst, e)) && CanonEntry(p.shorterFirst, e).key == e.key
    ensures p.keys.PythonKey? ==> Hashable(e.key)
    decreases e
  {
    hide Admits, PythonValue, Fits, KeyLike;
    CanonIsAdmitted(p, depth, e.key);
    CanonIsAdmitted(p, depth, e.value);
    KeyIsCanon(p.shorterFirst, e.key);
  }

  lemma {:induction false} CanonEntriesAdmitted(p: Profile, depth: nat, es: seq<Entry>)
    requires !p.keys.IntegerKey? && p.maxItems.None? && DistinctKeys(es)
    requires forall e :: e in es ==> PythonEntry(e) && FitsEntry(p, depth, e)
    ensures AdmittedKeys(p, depth, CanonEntries(p.shorterFirst, es)) && DistinctKeys(CanonEntries(p.shorterFirst, es))
    ensures forall i :: 0 <= i < |es| ==> CanonEntries(p.shorterFirst, es)[i].key == es[i].key
    decreases es
  {
    hide AdmitsEntry, PythonEntry, FitsEntry, CanonEntry, PythonIdentity;
    if |es| > 0 {
      var e, rest := es[0], es[1..];
      assert e in es;
      CanonEntryAdmitted(p, depth, e);
      CanonEntriesAdmitted(p, depth, rest);
      var canon := CanonEntries(p.shorterFirst, rest);
      assert CanonEntries(p.shorterFirst, es)[1..] == canon;
      forall f | f in canon ensures PythonIdentity(f.key) != PythonIdentity(e.key) {
        var i :| 0 <= i < |canon| && canon[i] == f;
        assert rest[i] in rest;
      }
    }
  }
}
