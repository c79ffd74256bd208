/**
  Deterministic CBOR: one printer and one recursive-descent parser.

  The tools contain four decoders of this format. They share the head rule (shortest
  argument, no indefinite lengths) and differ only in what a `Profile` records: the
  nesting limit, the item budget, the order required of map keys, and what may be a
  key. `Parse` is that common decoder and `Sound` and `Complete` say that it accepts
  a byte string exactly when it is the printing of an item the profile admits.
 */
module Cbor {
  import opened Bits
  import opened Outcomes
  import opened ByteStrings
  import opened Utf8

  /** A data item; Negative(n) is the integer -1 - n, and Simple is false, true or null. */
  datatype Item =
    | Unsigned(n: nat)
    | Negative(n: nat)
    | Bytes(b: bytes)
    | Text(b: bytes)
    | Array(items: seq<Item>)
    | Map(entries: seq<Entry>)
    | Simple(code: nat)

  datatype Entry = Entry(key: Item, value: Item)

  const FALSE := Simple(20)
  const TRUE := Simple(21)
  const NULL := Simple(22)

  // ----- heads

  /** Major type and argument, the argument in its shortest form; only arguments below 2^64 are meaningful. */
  function Head(major: nat, value: nat): (h: bytes)
    requires major < 8
    ensures 1 <= |h| <= 9
  {
    if value < 24 then [32 * major + value]
    else if value < U8_LIMIT then [32 * major + 24] + BigEndian(value, 1)
    else if value < U16_LIMIT then [32 * major + 25] + BigEndian(value, 2)
    else if value < U32_LIMIT then [32 * major + 26] + BigEndian(value, 4)
    else [32 * major + 27] + BigEndian(value, 8)
  }

  /** Why a decoder stops: the input is too short, or it breaks a rule. */
  datatype Fault = Eof | Invalid

  datatype HeadRead = HeadRead(major: nat, value: nat, pos: nat)

  /** The argument width that additional information `ai` announces, and the least value it may carry. */
  function Width(ai: nat): nat
    requires 24 <= ai <= 27
  {
    if ai == 24 then 1 else if ai == 25 then 2 else if ai == 26 then 4 else 8
  }

  function Least(ai: nat): nat
    requires 24 <= ai <= 27
  {
    if ai == 24 then 24 else if ai == 25 then U8_LIMIT else if ai == 26 then U16_LIMIT else U32_LIMIT
  }

  function ReadHead(data: bytes, pos: nat): (r: Result<HeadRead, Fault>)
    requires pos <= |data|
    ensures r.Ok? ==> pos < r.value.pos <= |data| && r.value.major < 8 && r.value.value < U64_LIMIT
  {
    if pos == |data| then Err(Eof)
    else
      var major, ai := data[pos] / 32, data[pos] % 32;
      if ai < 24 then Ok(HeadRead(major, ai, pos + 1))
      else if ai > 27 then Err(Invalid)
      else
        var width := Width(ai);
        if pos + 1 + width > |data| then Err(Eof)
        else
          var argument := data[pos + 1..pos + 1 + width];
          var value := FromBigEndian(argument);
          EncodeBigEndian(argument);
          Pow256Values();
          if value < Least(ai) then Err(Invalid) else Ok(HeadRead(major, value, pos + 1 + width))
  }

  /** A head is read exactly where it was printed. */
  lemma ReadsHead(data: bytes, pos: nat, major: nat, value: nat)
    requires major < 8 && value < U64_LIMIT && At(data, pos, Head(major, value))
    ensures ReadHead(data, pos) == Ok(HeadRead(major, value, pos + |Head(major, value)|))
  {
    hide BigEndian, FromBigEndian, Pow256;
    var h := Head(major, value);
    assert data[pos] == data[pos..pos + |h|][0] == h[0];
    if value >= 24 {
      var argument := h[1..];
      assert data[pos + 1..pos + |h|] == argument;
      Pow256Values();
      DecodeBigEndian(value, |argument|);
    }
  }

  lemma HeadWasPrinted(data: bytes, pos: nat)
    requires pos <= |data| && ReadHead(data, pos).Ok?
    ensures var r := ReadHead(data, pos).value;
      At(data, pos, Head(r.major, r.value)) && r.pos == pos + |Head(r.major, r.value)|
  {
    hide BigEndian, FromBigEndian, Pow256;
    var r := ReadHead(data, pos).value;
    var ai := data[pos] % 32;
    assert data[pos] == 32 * r.major + ai;
    assert data[pos..r.pos] == [data[pos]] + data[pos + 1..r.pos];
    if ai >= 24 {
      EncodeBigEndian(data[pos + 1..r.pos]);
      Pow256Values();
      assert Head(r.major, r.value) == [data[pos]] + data[pos + 1..r.pos];
    }
  }

  // ----- printing

  function Print(v: Item): (r: bytes)
    ensures |r| >= 1
  {
    match v
    case Unsigned(n) => Head(0, n)
    case Negative(n) => Head(1, n)
    case Bytes(b) => Head(2, |b|) + b
    case Text(b) => Head(3, |b|) + b
    case Array(xs) => Head(4, |xs|) + PrintAll(xs)
    case Map(es) => Head(5, |es|) + PrintEntries(es)
    case Simple(code) => Head(7, code)
  }

  function PrintAll(xs: seq<Item>): bytes {
    if |xs| == 0 then [] else Print(xs[0]) + PrintAll(xs[1..])
  }

  function PrintEntries(es: seq<Entry>): bytes {
    if |es| == 0 then [] else PrintEntry(es[0]) + PrintEntries(es[1..])
  }

  function PrintEntry(e: Entry): bytes {
    Print(e.key) + Print(e.value)
  }

  /** The number of data items in a tree. */
  function Size(v: Item): (n: nat)
    ensures n >= 1
  {
    match v
    case Array(xs) => 1 + SizeAll(xs)
    case Map(es) => 1 + SizeEntries(es)
    case _ => 1
  }

  function SizeAll(xs: seq<Item>): nat {
    if |xs| == 0 then 0 else Size(xs[0]) + SizeAll(xs[1..])
  }

  function SizeEntries(es: seq<Entry>): nat {
    if |es| == 0 then 0 else SizeEntry(es[0]) + SizeEntries(es[1..])
  }

  function SizeEntry(e: Entry): nat {
    Size(e.key) + Size(e.value)
  }

  // ----- profiles

  /** Which keys a map may have; `Unordered` also drops the order that the other rules require. */
  datatype KeyRule = AnyKey | PythonKey | IntegerKey | Unordered

  datatype Profile = Profile(
    maxDepth: Option<nat>, maxItems: Option<nat>, shorterFirst: bool, negatives: bool, keys: KeyRule)

  predicate DepthOk(p: Profile, depth: nat) {
    p.maxDepth.Some? ==> depth <= p.maxDepth.value
  }

  predicate CountOk(p: Profile, items: nat) {
    p.maxItems.Some? ==> items <= p.maxItems.value
  }

  /** The two orders of encoded keys: by length and then bytewise, or bytewise only. */
  predicate KeyOrder(shorterFirst: bool, a: bytes, b: bytes) {
    if shorterFirst then ShorterOrLess(a, b) else Less(a, b)
  }

  /** The order required of consecutive encoded keys. */
  predicate Before(p: Profile, a: bytes, b: bytes) {
    p.keys.Unordered? || KeyOrder(p.shorterFirst, a, b)
  }

  /** Python hashes neither lists nor dictionaries. */
  predicate Hashable(key: Item) {
    !key.Array? && !key.Map?
  }

  /** Python takes False for 0 and True for 1 when it compares keys, also inside tuples. */
  function PythonIdentity(key: Item): Item {
    match key
    case Simple(code) => if key == FALSE then Unsigned(0) else if key == TRUE then Unsigned(1) else key
    case Array(xs) => Array(PythonIdentities(xs))
    case _ => key
  }

  function PythonIdentities(keys: seq<Item>): seq<Item> {
    if |keys| == 0 then [] else [PythonIdentity(keys[0])] + PythonIdentities(keys[1..])
  }

  predicate KeyAllowed(p: Profile, key: Item, earlier: seq<Item>) {
    match p.keys
    case AnyKey => true
    case Unordered => true
    case PythonKey =>
      Hashable(key) && forall i :: 0 <= i < |earlier| ==> PythonIdentity(earlier[i]) != PythonIdentity(key)
    case IntegerKey => key.Unsigned? || key.Negative?
  }

  /** `key` may follow the keys `earlier` of the same map. */
  predicate KeyFits(p: Profile, key: Item, earlier: seq<Item>) {
    && (|earlier| > 0 ==> Before(p, Print(earlier[|earlier| - 1]), Print(key)))
    && KeyAllowed(p, key, earlier)
  }

  /** The profile admits item `v` at nesting level `depth`. */
  predicate Admits(p: Profile, depth: nat, v: Item)
    decreases v
  {
    && DepthOk(p, depth)
    && match v
       case Unsigned(n) => n < U64_LIMIT
       case Negative(n) => p.negatives && n < U64_LIMIT
       case Bytes(b) => |b| < U64_LIMIT
       case Text(b) => |b| < U64_LIMIT && ValidUtf8(b)
       case Array(xs) => |xs| < U64_LIMIT && AdmitsAll(p, depth + 1, xs)
       case Map(es) => |es| < U64_LIMIT && AdmitsEntries(p, depth + 1, es, [])
       case Simple(code) => 20 <= code <= 22
  }

  predicate AdmitsAll(p: Profile, depth: nat, xs: seq<Item>)
    decreases xs
  {
    |xs| > 0 ==> Admits(p, depth, xs[0]) && AdmitsAll(p, depth, xs[1..])
  }

  predicate AdmitsEntries(p: Profile, depth: nat, es: seq<Entry>, earlier: seq<Item>)
    decreases es
  {
    |es| > 0 ==>
      && AdmitsEntry(p, depth, es[0])
      && KeyFits(p, es[0].key, earlier)
      && AdmitsEntries(p, depth, es[1..], earlier + [es[0].key])
  }

  predicate AdmitsEntry(p: Profile, depth: nat, e: Entry)
    decreases e
  {
    Admits(p, depth, e.key) && Admits(p, depth, e.value)
  }

  // ----- parsing

  /** A parsed value, the position after it, and the items counted so far. */
  datatype Parsed<+T> = Parsed(value: T, pos: nat, items: nat)

  /** `len` bytes at `pos`, where positions are 64-bit. */
  function Take(data: bytes, pos: nat, len: nat): (r: Result<bytes, Fault>)
    requires pos <= |data|
    ensures r.Ok? ==> At(data, pos, r.value) && |r.value| == len
  {
    if pos + len <= |data| then Ok(data[pos..pos + len])
    else if pos + len >= U64_LIMIT then Err(Invalid)
    else Err(Eof)
  }

  function Parse(p: Profile, data: bytes, pos: nat, depth: nat, items: nat): (r: Result<Parsed<Item>, Fault>)
    requires pos <= |data|
    ensures r.Ok? ==> pos < r.value.pos <= |data|
    decreases |data| - pos, 0
  {
    if !DepthOk(p, depth) || !CountOk(p, items + 1) then Err(Invalid)
    else
      var head := ReadHead(data, pos);
      if head.Err? then Err(head.error)
      else
        var HeadRead(major, value, at) := head.value;
        match major
        case 0 => Ok(Parsed(Unsigned(value), at, items + 1))
        case 1 => if p.negatives then Ok(Parsed(Negative(value), at, items + 1)) else Err(Invalid)
        case 2 =>
          var b := Take(data, at, value);
          if b.Err? then Err(b.error) else Ok(Parsed(Bytes(b.value), at + value, items + 1))
        case 3 =>
          var b := Take(data, at, value);
          if b.Err? then Err(b.error)
          else if !ValidUtf8(b.value) then Err(Invalid)
          else Ok(Parsed(Text(b.value), at + value, items + 1))
        case 4 =>
          var xs := ParseAll(p, data, at, depth + 1, items + 1, value);
          if xs.Err? then Err(xs.error) else Ok(Parsed(Array(xs.value.value), xs.value.pos, xs.value.items))
        case 5 =>
          var es := ParseEntries(p, data, at, depth + 1, items + 1, value, [], []);
          if es.Err? then Err(es.error) else Ok(Parsed(Map(es.value.value), es.value.pos, es.value.items))
        case _ =>
          if major == 7 && 20 <= value <= 22 then Ok(Parsed(Simple(value), at, items + 1)) else Err(Invalid)
  }

  /** `n` consecutive items. */
  function ParseAll(p: Profile, data: bytes, pos: nat, depth: nat, items: nat, n: nat)
    : (r: Result<Parsed<seq<Item>>, Fault>)
    requires pos <= |data|
    ensures r.Ok? ==> pos <= r.value.pos <= |data|
    decreases |data| - pos, 1
  {
    if n == 0 then Ok(Parsed([], pos, items))
    else
      var first := Parse(p, data, pos, depth, items);
      if first.Err? then Err(first.error)
      else
        var rest := ParseAll(p, data, first.value.pos, depth, first.value.items, n - 1);
        if rest.Err? then Err(rest.error)
        else Ok(Parsed([first.value.value] + rest.value.value, rest.value.pos, rest.value.items))
  }

  /** `n` consecutive map entries; `previous` is the encoding of the last key in `earlier`. */
  function ParseEntries(p: Profile, data: bytes, pos: nat, depth: nat, items: nat, n: nat,
                        earlier: seq<Item>, previous: bytes)
    : (r: Result<Parsed<seq<Entry>>, Fault>)
    requires pos <= |data|
    ensures r.Ok? ==> pos <= r.value.pos <= |data|
    decreases |data| - pos, 1
  {
    if n == 0 then Ok(Parsed([], pos, items))
    else
      var key := Parse(p, data, pos, depth, items);
      if key.Err? then Err(key.error)
      else
        var encoded := data[pos..key.value.pos];
        if |earlier| > 0 && !Before(p, previous, encoded) then Err(Invalid)
        else if !KeyAllowed(p, key.value.value, earlier) then Err(Invalid)
        else
          var value := Parse(p, data, key.value.pos, depth, key.value.items);
          if value.Err? then Err(value.error)
          else
            var rest := ParseEntries(p, data, value.value.pos, depth, value.value.items, n - 1,
                                     earlier + [key.value.value], encoded);
            if rest.Err? then Err(rest.error)
            else Ok(Parsed([Entry(key.value.value, value.value.value)] + rest.value.value,
                           rest.value.pos, rest.value.items))
  }

  // ----- the parser accepts exactly the printings of admitted items

  /** What a successful parse of `v` from `pos` amounts to. */
  ghost predicate Reads(p: Profile, data: bytes, pos: nat, items: nat, printed: bytes, size: nat, pos': nat,
      items': nat)
  {
    At(data, pos, printed) && pos' == pos + |printed| && items' == items + size && (size > 0 ==> CountOk(p, items'))
  }

  lemma {:induction false} Sound(p: Profile, data: bytes, pos: nat, depth: nat, items: nat)
    requires pos <= |data| && Parse(p, data, pos, depth, items).Ok?
    ensures var r := Parse(p, data, pos, depth, items).value;
      && Admits(p, depth, r.value)
      && Reads(p, data, pos, items, Print(r.value), Size(r.value), r.pos, r.items)
    decreases |data| - pos, 0
  {
    hide ValidUtf8, ReadHead, Head, At, ParseAll, ParseEntries, PrintAll, PrintEntries, SizeAll, SizeEntries,
         AdmitsAll, AdmitsEntries;
    var HeadRead(major, value, at) := ReadHead(data, pos).value;
    var r := Parse(p, data, pos, depth, items).value;
    HeadWasPrinted(data, pos);
    match r.value {
      case Bytes(b) => AtConcat(data, pos, Head(major, value), b);
      case Text(b) => AtConcat(data, pos, Head(major, value), b);
      case Array(xs) =>
        SoundAll(p, data, at, depth + 1, items + 1, value);
        AtConcat(data, pos, Head(major, value), PrintAll(xs));
      case Map(es) =>
        SoundEntries(p, data, at, depth + 1, items + 1, value, [], []);
        AtConcat(data, pos, Head(major, value), PrintEntries(es));
      case _ =>
    }
  }

  lemma {:induction false} SoundAll(p: Profile, data: bytes, pos: nat, depth: nat, items: nat, n: nat)
    requires pos <= |data| && ParseAll(p, data, pos, depth, items, n).Ok?
    ensures var r := ParseAll(p, data, pos, depth, items, n).value;
      && |r.value| == n && AdmitsAll(p, depth, r.value)
      && Reads(p, data, pos, items, PrintAll(r.value), SizeAll(r.value), r.pos, r.items)
    decreases |data| - pos, 1
  {
    hide Parse, Print, Size, Admits;
    if n > 0 {
      var first := Parse(p, data, pos, depth, items).value;
      Sound(p, data, pos, depth, items);
      SoundAll(p, data, first.pos, depth, first.items, n - 1);
      var rest := ParseAll(p, data, first.pos, depth, first.items, n - 1).value;
      AtConcat(data, pos, Print(first.value), PrintAll(rest.value));
    }
  }

  lemma {:induction false} SoundEntries(p: Profile, data: bytes, pos: nat, depth: nat, items: nat, n: nat,
                                        earlier: seq<Item>, previous: bytes)
    requires pos <= |data| && ParseEntries(p, data, pos, depth, items, n, earlier, previous).Ok?
    requires |earlier| > 0 ==> previous == Print(earlier[|earlier| - 1])
    ensures var r := ParseEntries(p, data, pos, depth, items, n, earlier, previous).value;
      && |r.value| == n && AdmitsEntries(p, depth, r.value, earlier)
      && Reads(p, data, pos, items, PrintEntries(r.value), SizeEntries(r.value), r.pos, r.items)
    decreases |data| - pos, 1
  {
    hide Parse, Print, Size, Admits, Before, KeyAllowed;
    if n > 0 {
      var key := Parse(p, data, pos, depth, items).value;
      Sound(p, data, pos, depth, items);
      var value := Parse(p, data, key.pos, depth, key.items).value;
      Sound(p, data, key.pos, depth, key.items);
      var encoded := data[pos..key.pos];
      var rest := ParseEntries(p, data, value.pos, depth, value.items, n - 1, earlier + [key.value], encoded).value;
      SoundEntries(p, data, value.pos, depth, value.items, n - 1, earlier + [key.value], encoded);
      AtConcat(data, pos, Print(key.value), Print(value.value));
      AtConcat(data, pos, PrintEntry(Entry(key.value, value.value)), PrintEntries(rest.value));
    }
  }

  lemma {:induction false} Complete(p: Profile, data: bytes, pos: nat, depth: nat, items: nat, v: Item)
    requires At(data, pos, Print(v))
    requires Admits(p, depth, v) && CountOk(p, items + Size(v))
    ensures Parse(p, data, pos, depth, items) == Ok(Parsed(v, pos + |Print(v)|, items + Size(v)))
    decreases |data| - pos, 0
  {
    hide ValidUtf8, ReadHead, Head, At, ParseAll, ParseEntries, PrintAll, PrintEntries, SizeAll, SizeEntries,
         AdmitsAll, AdmitsEntries;
    AtFits(data, pos, Print(v));
    match v {
      case Unsigned(n) => ReadsHead(data, pos, 0, n);
      case Negative(n) => ReadsHead(data, pos, 1, n);
      case Simple(code) => ReadsHead(data, pos, 7, code);
      case Bytes(b) =>
        AtConcat(data, pos, Head(2, |b|), b);
        ReadsHead(data, pos, 2, |b|);
        AtFits(data, pos + |Head(2, |b|)|, b);
      case Text(b) =>
        AtConcat(data, pos, Head(3, |b|), b);
        ReadsHead(data, pos, 3, |b|);
        AtFits(data, pos + |Head(3, |b|)|, b);
      case Array(xs) =>
        AtConcat(data, pos, Head(4, |xs|), PrintAll(xs));
        ReadsHead(data, pos, 4, |xs|);
        AtFits(data, pos + |Head(4, |xs|)|, PrintAll(xs));
        CompleteAll(p, data, pos + |Head(4, |xs|)|, depth + 1, items + 1, xs);
      case Map(es) =>
        AtConcat(data, pos, Head(5, |es|), PrintEntries(es));
        ReadsHead(data, pos, 5, |es|);
        AtFits(data, pos + |Head(5, |es|)|, PrintEntries(es));
        CompleteEntries(p, data, pos + |Head(5, |es|)|, depth + 1, items + 1, es, [], []);
    }
  }

  lemma {:induction false} CompleteAll(p: Profile, data: bytes, pos: nat, depth: nat, items: nat, xs: seq<Item>)
    requires At(data, pos, PrintAll(xs))
    requires AdmitsAll(p, depth, xs) && CountOk(p, items + SizeAll(xs))
    ensures ParseAll(p, data, pos, depth, items, |xs|) == Ok(Parsed(xs, pos + |PrintAll(xs)|, items + SizeAll(xs)))
    decreases |data| - pos, 1
  {
    hide Parse, Print, Size, Admits, At, ParseAll, PrintAll, SizeAll, AdmitsAll, CountOk;
    AtFits(data, pos, PrintAll(xs));
    if |xs| == 0 {
      NoItems(p, data, pos, depth, items, xs);
    } else {
      var first, rest := xs[0], xs[1..];
      FirstItem(p, depth, xs);
      AtConcat(data, pos, Print(first), PrintAll(rest));
      AtFits(data, pos, Print(first));
      CountShrinks(p, items + Size(first), SizeAll(rest));
      Complete(p, data, pos, depth, items, first);
      CompleteAll(p, data, pos + |Print(first)|, depth, items + Size(first), rest);
      ParseFirst(p, data, pos, depth, items, |xs|);
      assert xs == [first] + rest;
    }
  }

  lemma NoItems(p: Profile, data: bytes, pos: nat, depth: nat, items: nat, xs: seq<Item>)
    requires |xs| == 0 && pos <= |data|
    ensures PrintAll(xs) == [] && SizeAll(xs) == 0 && xs == []
    ensures ParseAll(p, data, pos, depth, items, 0) == Ok(Parsed([], pos, items))
  {
  }

  lemma FirstItem(p: Profile, depth: nat, xs: seq<Item>)
    requires |xs| > 0
    ensures PrintAll(xs) == Print(xs[0]) + PrintAll(xs[1..]) && SizeAll(xs) == Size(xs[0]) + SizeAll(xs[1..])
    ensures AdmitsAll(p, depth, xs) <==> Admits(p, depth, xs[0]) && AdmitsAll(p, depth, xs[1..])
  {
    hide Print, Size, Admits;
  }

  lemma CountShrinks(p: Profile, items: nat, more: nat)
    requires CountOk(p, items + more)
    ensures CountOk(p, items)
  {
  }

  lemma ParseFirst(p: Profile, data: bytes, pos: nat, depth: nat, items: nat, n: nat)
    requires pos <= |data| && n > 0 && Parse(p, data, pos, depth, items).Ok?
    ensures
      var first := Parse(p, data, pos, depth, items).value;
      var rest := ParseAll(p, data, first.pos, depth, first.items, n - 1);
      rest.Ok? ==>
        ParseAll(p, data, pos, depth, items, n)
        == Ok(Parsed([first.value] + rest.value.value, rest.value.pos, rest.value.items))
  {
    hide Parse;
  }

  lemma {:induction false} CompleteEntries(p: Profile, data: bytes, pos: nat, depth: nat, items: nat,
                                           es: seq<Entry>, earlier: seq<Item>, previous: bytes)
    requires At(data, pos, PrintEntries(es))
    requires AdmitsEntries(p, depth, es, earlier) && CountOk(p, items + SizeEntries(es))
    requires |earlier| > 0 ==> previous == Print(earlier[|earlier| - 1])
    ensures ParseEntries(p, data, pos, depth, items, |es|, earlier, previous)
         == Ok(Parsed(es, pos + |PrintEntries(es)|, items + SizeEntries(es)))
    decreases |data| - pos, 1
  {
    hide Parse, Print, Size, Admits, Before, KeyAllowed, At;
    if |es| > 0 {
      var key, value, rest := es[0].key, es[0].value, es[1..];
      AtConcat(data, pos, PrintEntry(es[0]), PrintEntries(rest));
      AtConcat(data, pos, Print(key), Print(value));
      AtFits(data, pos, PrintEntries(es));
      AtFits(data, pos, Print(key));
      var at, count := pos + |Print(key)|, items + Size(key);
      Complete(p, data, pos, depth, items, key);
      Complete(p, data, at, depth, count, value);
      CompleteEntries(p, data, at + |Print(value)|, depth, count + Size(value), rest, earlier + [key], Print(key));
      assert es == [es[0]] + rest;
    }
  }

  /** A whole input is accepted exactly when it prints an admitted item within the item budget. */
  lemma AcceptsExactly(p: Profile, data: bytes, depth: nat, v: Item)
    ensures (exists items: nat :: Parse(p, data, 0, depth, 0) == Ok(Parsed(v, |data|, items)))
       <==> Admits(p, depth, v) && data == Print(v) && CountOk(p, Size(v))
  {
    hide Parse, Print, Size, Admits;
    if Admits(p, depth, v) && data == Print(v) && CountOk(p, Size(v)) {
      Complete(p, data, 0, depth, 0, v);
    }
    if items: nat :| Parse(p, data, 0, depth, 0) == Ok(Parsed(v, |data|, items)) {
      Sound(p, data, 0, depth, 0);
    }
  }

  /** Admitted items with equal printings are equal. */
  lemma PrintInjective(p: Profile, depth: nat, v: Item, w: Item)
    requires p.maxItems.None? && Admits(p, depth, v) && Admits(p, depth, w) && Print(v) == Print(w)
    ensures v == w
  {
    hide Parse, Print, Size, Admits;
    Complete(p, Print(v), 0, depth, 0, v);
    Complete(p, Print(v), 0, depth, 0, w);
  }

  // ----- the decoders' own shape: recursion with a loop for arrays and for maps

  method ParseItem(p: Profile, data: bytes, pos: nat, depth: nat, items: nat) returns (r: Result<Parsed<Item>, Fault>)
    requires pos <= |data|
    ensures r == Parse(p, data, pos, depth, items)
    decreases |data| - pos, 0
  {
    hide ValidUtf8, ReadHead, ParseAll, ParseEntries;
    if !DepthOk(p, depth) || !CountOk(p, items + 1) {
      return Err(Invalid);
    }
    var head := ReadHead(data, pos);
    if head.Err? {
      return Err(head.error);
    }
    var HeadRead(major, value, at) := head.value;
    if major == 0 {
      return Ok(Parsed(Unsigned(value), at, items + 1));
    } else if major == 1 && p.negatives {
      return Ok(Parsed(Negative(value), at, items + 1));
    } else if major == 2 || major == 3 {
      var b := Take(data, at, value);
      if b.Err? {
        return Err(b.error);
      }
      if major == 3 && !ValidUtf8(b.value) {
        return Err(Invalid);
      }
      return Ok(Parsed(if major == 2 then Bytes(b.value) else Text(b.value), at + value, items + 1));
    } else if major == 4 {
      var xs := ParseItems(p, data, at, depth + 1, items + 1, value);
      if xs.Err? {
        return Err(xs.error);
      }
      return Ok(Parsed(Array(xs.value.value), xs.value.pos, xs.value.items));
    } else if major == 5 {
      var es := ParseMap(p, data, at, depth + 1, items + 1, value);
      if es.Err? {
        return Err(es.error);
      }
      return Ok(Parsed(Map(es.value.value), es.value.pos, es.value.items));
    } else if major == 7 && 20 <= value <= 22 {
      return Ok(Parsed(Simple(value), at, items + 1));
    } else {
      return Err(Invalid);
    }
  }

  /** What remains to be parsed, put after what has been. */
  function After<T>(done: seq<T>, rest: Result<Parsed<seq<T>>, Fault>): Result<Parsed<seq<T>>, Fault> {
    if rest.Err? then rest else Ok(rest.value.(value := done + rest.value.value))
  }

  method ParseItems(p: Profile, data: bytes, pos: nat, depth: nat, items: nat, n: nat)
    returns (r: Result<Parsed<seq<Item>>, Fault>)
    requires pos <= |data|
    ensures r == ParseAll(p, data, pos, depth, items, n)
    decreases |data| - pos, 1
  {
    hide Parse;
    var offset, count, i := pos, items, 0;
    var decoded: seq<Item> := [];
    ghost var goal := ParseAll(p, data, pos, depth, items, n);
    assert goal.Ok? ==> [] + goal.value.value == goal.value.value;
    while i < n
      invariant 0 <= i <= n && pos <= offset <= |data|
      invariant After(decoded, ParseAll(p, data, offset, depth, count, n - i)) == goal
    {
      var item := ParseItem(p, data, offset, depth, count);
      if item.Err? {
        return Err(item.error);
      }
      ghost var rest := ParseAll(p, data, item.value.pos, depth, item.value.items, n - i - 1);
      if rest.Ok? {
        assert decoded + ([item.value.value] + rest.value.value) == decoded + [item.value.value] + rest.value.value;
      }
      decoded := decoded + [item.value.value];
      offset, count, i := item.value.pos, item.value.items, i + 1;
    }
    assert decoded + [] == decoded;
    return Ok(Parsed(decoded, offset, count));
  }

  method ParseMap(p: Profile, data: bytes, pos: nat, depth: nat, items: nat, n: nat)
    returns (r: Result<Parsed<seq<Entry>>, Fault>)
    requires pos <= |data|
    ensures r == ParseEntries(p, data, pos, depth, items, n, [], [])
    decreases |data| - pos, 1
  {
    hide Parse, Before, KeyAllowed;
    var offset, count, i := pos, items, 0;
    var decoded: seq<Entry> := [];
    var keys: seq<Item> := [];
    var previous: bytes := [];
    ghost var goal := ParseEntries(p, data, pos, depth, items, n, [], []);
    assert goal.Ok? ==> [] + goal.value.value == goal.value.value;
    while i < n
      invariant 0 <= i <= n && pos <= offset <= |data| && (i > 0 ==> offset > pos)
      invariant After(decoded, ParseEntries(p, data, offset, depth, count, n - i, keys, previous)) == goal
    {
      var key := ParseItem(p, data, offset, depth, count);
      if key.Err? {
        return Err(key.error);
      }
      var encoded := data[offset..key.value.pos];
      if |keys| > 0 && !Before(p, previous, encoded) {
        return Err(Invalid);
      }
      if !KeyAllowed(p, key.value.value, keys) {
        return Err(Invalid);
      }
      var value := ParseItem(p, data, key.value.pos, depth, key.value.items);
      if value.Err? {
        return Err(value.error);
      }
      var entry := Entry(key.value.value, value.value.value);
      ghost var rest := ParseEntries(p, data, value.value.pos, depth, value.value.items, n - i - 1,
                                     keys + [key.value.value], encoded);
      if rest.Ok? {
        assert decoded + ([entry] + rest.value.value) == decoded + [entry] + rest.value.value;
      }
      decoded, keys, previous := decoded + [entry], keys + [key.value.value], encoded;
      offset, count, i := value.value.pos, value.value.items, i + 1;
    }
    assert decoded + [] == decoded;
    return Ok(Parsed(decoded, offset, count));
  }

  // ----- examples of Appendix A of RFC 8949

  lemma NumberExamples()
    ensures Print(Unsigned(0)) == [0x00] && Print(Unsigned(23)) == [0x17] && Print(Unsigned(24)) == [0x18, 0x18]
    ensures Print(Unsigned(1000)) == [0x19, 0x03, 0xe8]
    ensures Print(Negative(0)) == [0x20] && Print(Negative(99)) == [0x38, 0x63]
  {
    assert BigEndian(1000, 2) == BigEndian(3, 1) + [0xe8];
  }

  lemma LargeNumberExamples()
    ensures Print(Unsigned(1000000)) == [0x1a, 0x00, 0x0f, 0x42, 0x40]
    ensures Print(Unsigned(1000000000000)) == [0x1b, 0x00, 0x00, 0x00, 0xe8, 0xd4, 0xa5, 0x10, 0x00]
  {
    assert BigEndian(1000000, 4) == BigEndian(3906, 3) + [0x40] == BigEndian(15, 2) + [0x42, 0x40];
    assert BigEndian(15, 2) == [0x00, 0x0f];
    assert BigEndian(1000000000000, 8) == BigEndian(3906250000, 7) + [0x00] == BigEndian(15258789, 6) + [0x10, 0x00];
    assert BigEndian(15258789, 6) == BigEndian(59604, 5) + [0xa5] == BigEndian(232, 4) + [0xd4, 0xa5];
    assert BigEndian(232, 4) == BigEndian(0, 3) + [0xe8];
    assert BigEndian(0, 3) == [0, 0, 0];
  }

  lemma OtherExamples()
    ensures Print(Bytes([1, 2, 3, 4])) == [0x44, 1, 2, 3, 4] && Print(Text(Ascii("a"))) == [0x61, 0x61]
    ensures Print(Array([])) == [0x80] && Print(Map([])) == [0xa0]
    ensures Print(FALSE) == [0xf4] && Print(TRUE) == [0xf5] && Print(NULL) == [0xf6]
  {
    assert Ascii("a") == [0x61];
  }

  /** [1, 2] and {1: 2}, with the number of items they count as. */
  lemma NestedExamples()
    ensures var v := Array([Unsigned(1), Unsigned(2)]); Print(v) == [0x82, 1, 2] && Size(v) == 3
    ensures var v := Map([Entry(Unsigned(1), Unsigned(2))]); Print(v) == [0xa1, 1, 2] && Size(v) == 3
  {
    var one, two := Unsigned(1), Unsigned(2);
    assert [one, two][1..] == [two] && [two][1..] == [];
    assert PrintAll([two]) == [2] && PrintAll([one, two]) == [1, 2];
    assert SizeAll([two]) == 1 && SizeAll([one, two]) == 2;
    var e := Entry(one, two);
    assert [e][1..] == [];
    assert PrintEntries([e]) == PrintEntry(e) + PrintEntries([]) && PrintEntry(e) == [1, 2];
    assert SizeEntries([e]) == SizeEntry(e) + SizeEntries([]);
  }

  // ----- what the key rules mean

  /** A map with one entry: under `IntegerKey` the key is an integer, under `PythonKey` neither array nor map. */
  lemma OneKey(p: Profile, e: Entry)
    requires p.maxDepth.None? || p.maxDepth.value > 0
    ensures Admits(p, 0, Map([e])) <==>
      && AdmitsEntry(p, 1, e)
      && (p.keys.IntegerKey? ==> e.key.Unsigned? || e.key.Negative?)
      && (p.keys.PythonKey? ==> !e.key.Array? && !e.key.Map?)
  {
    hide AdmitsEntry, Print;
    AdmitsFirst(p, e, [], []);
    assert [e] + [] == [e] && AdmitsEntries(p, 1, [], [e.key]);
  }

  lemma AdmitsFirst(p: Profile, e: Entry, rest: seq<Entry>, earlier: seq<Item>)
    ensures AdmitsEntries(p, 1, [e] + rest, earlier)
       <==> AdmitsEntry(p, 1, e) && KeyFits(p, e.key, earlier) && AdmitsEntries(p, 1, rest, earlier + [e.key])
  {
    hide AdmitsEntry, KeyFits;
    assert ([e] + rest)[1..] == rest;
  }

  /** With two: their encoded keys are in order, and Python does not take them for one key. */
  lemma TwoKeys(p: Profile, e: Entry, f: Entry)
    requires p.maxDepth.None? || p.maxDepth.value > 0
    requires !p.keys.Unordered?
    ensures Admits(p, 0, Map([e, f])) <==>
      && Admits(p, 0, Map([e])) && Admits(p, 0, Map([f]))
      && (if p.shorterFirst then ShorterOrLess(Print(e.key), Print(f.key)) else Less(Print(e.key), Print(f.key)))
      && (p.keys.PythonKey? ==> !SameToPython(e.key, f.key))
  {
    hide AdmitsEntry, Print, Less, PythonIdentity;
    AdmitsFirst(p, e, [], []);
    AdmitsFirst(p, f, [], []);
    AdmitsFirst(p, e, [f], []);
    AdmitsFirst(p, f, [], [e.key]);
    assert AdmitsEntries(p, 1, [], [e.key]) && AdmitsEntries(p, 1, [], [f.key]);
    assert AdmitsEntries(p, 1, [], [e.key, f.key]) && [e] + [f] == [e, f] && [e.key] + [f.key] == [e.key, f.key];
    if p.keys.PythonKey? && Hashable(e.key) && Hashable(f.key) {
      IdentityIs(e.key, f.key);
    }
  }

  /** Equal, or False and 0, or True and 1. */
  predicate SameToPython(a: Item, b: Item) {
    || a == b || (a == FALSE && b == Unsigned(0)) || (a == Unsigned(0) && b == FALSE)
    || (a == TRUE && b == Unsigned(1)) || (a == Unsigned(1) && b == TRUE)
  }

  lemma IdentityIs(a: Item, b: Item)
    requires Hashable(a) && Hashable(b)
    ensures PythonIdentity(a) == PythonIdentity(b) <==> SameToPython(a, b)
  {
  }
}
