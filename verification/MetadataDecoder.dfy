/** The metadata reader as it runs: a cursor and an item counter, moved on by each read. */
module MetadataDecoder {
  import opened Bits
  import opened Outcomes
  import opened ByteStrings
  import opened Utf8
  import opened Cbor
  import opened Envelope
  import opened Metadata

  /** Where a parse stops and how many items it counted, without the value. */
  function Verdict<T>(r: Result<Parsed<T>, Fault>): Outcome<(nat, nat)> {
    if r.Err? then Err(FaultError(r.error)) else Ok((r.value.pos, r.value.items))
  }

  class Decoder {
    const data: bytes
    var pos: nat
    var items: nat
    /** The deepest level at which an item has been counted. */
    ghost var deepest: nat

    ghost predicate Valid()
      reads this
    {
      pos <= |data| && items <= MAX_ITEMS && deepest <= MAX_DEPTH
    }

    /** What holds after a read, failed or not: only the item it failed on may be unpaid or uncountable. */
    twostate predicate Moved()
      reads this
    {
      && old(pos) <= pos <= |data| && items <= MAX_ITEMS + 1 && deepest <= MAX_DEPTH
      && items - old(items) <= pos - old(pos) + 1
    }

    /** After a successful read, each item counted has taken at least one byte. */
    twostate predicate Paid(counted: nat)
      reads this
    {
      Valid() && old(items) + counted <= items && items - old(items) <= pos - old(pos)
    }

    constructor (data: bytes)
      ensures Valid() && this.data == data && pos == 0 && items == 0
    {
      this.data := data;
      pos, items, deepest := 0, 0, 0;
    }

    method BumpItem(ghost depth: nat) returns (r: Outcome<()>)
      requires Valid() && depth <= MAX_DEPTH
      modifies this
      ensures Moved() && pos == old(pos) && items == old(items) + 1
      ensures r == if CountOk(PROFILE, old(items) + 1) then Ok(()) else Err(InvalidCborEncoding)
    {
      items := items + 1;
      if deepest < depth {
        deepest := depth;
      }
      if items > MAX_ITEMS {
        return Err(InvalidCborEncoding);
      }
      return Ok(());
    }

    method TakeLen(len: nat) returns (r: Outcome<bytes>)
      requires Valid()
      modifies this
      ensures Moved() && items == old(items) && deepest == old(deepest)
      ensures var t := Take(data, old(pos), len);
        if t.Ok? then r == Ok(t.value) && pos == old(pos) + len else r == Err(FaultError(t.error))
    {
      if pos + len > |data| {
        return Err(if pos + len >= U64_LIMIT then InvalidCborEncoding else UnexpectedEof);
      }
      r := Ok(data[pos..pos + len]);
      pos := pos + len;
    }

    method ReadTypeLen() returns (r: Outcome<(nat, nat)>)
      requires Valid()
      modifies this
      ensures Moved() && items == old(items) && deepest == old(deepest)
      ensures var h := ReadHead(data, old(pos));
        if h.Ok? then r == Ok((h.value.major, h.value.value)) && pos == h.value.pos else r == Err(FaultError(h.error))
    {
      hide FromBigEndian;
      if pos == |data| {
        return Err(UnexpectedEof);
      }
      var first := data[pos];
      pos := pos + 1;
      var major, ai := first / 32, first % 32;
      if ai < 24 {
        return Ok((major, ai));
      } else if ai > 27 {
        return Err(InvalidCborEncoding);
      }
      var width := Width(ai);
      if width > |data| - pos {
        return Err(UnexpectedEof);
      }
      var value := FromBigEndian(data[pos..pos + width]);
      pos := pos + width;
      if value < Least(ai) {
        return Err(InvalidCborEncoding);
      }
      return Ok((major, value));
    }

    /** One counted scalar of the wanted major type, `wrong` reporting another. */
    method DecodeScalar(major: nat, wrong: Error, ghost depth: nat) returns (r: Outcome<Item>)
      requires Valid() && major in {0, 2, 3} && depth <= MAX_DEPTH
      modifies this
      ensures Moved()
      ensures var s := ReadScalar(major, wrong, data, old(pos), old(items));
        if s.Ok? then r == Ok(s.value.value) && pos == s.value.pos && items == s.value.items && Paid(1)
        else r == Err(s.error)
    {
      hide ReadHead, ValidUtf8;
      var ok := BumpItem(depth);
      if ok.Err? {
        return Err(ok.error);
      }
      var head := ReadTypeLen();
      if head.Err? {
        return Err(head.error);
      }
      if head.value.0 != major {
        return Err(wrong);
      }
      if major == 0 {
        return Ok(Unsigned(head.value.1));
      }
      var b := TakeLen(head.value.1);
      if b.Err? {
        return Err(b.error);
      }
      if major == 3 && !ValidUtf8(b.value) {
        return Err(InvalidCborEncoding);
      }
      return Ok(if major == 2 then Bytes(b.value) else Text(b.value));
    }

    /** Passes over one item of any shape, checking it as the general decoder would. */
    method SkipItem(depth: nat) returns (r: Outcome<()>)
      requires Valid()
      modifies this
      ensures Moved()
      ensures var v := Verdict(Parse(PROFILE, data, old(pos), depth, old(items)));
        if v.Ok? then r == Ok(()) && pos == v.value.0 && items == v.value.1 && Paid(1) else r == Err(v.error)
      decreases |data| - pos, 0
    {
      hide ReadHead, ValidUtf8, ParseAll, ParseEntries;
      if depth > MAX_DEPTH {
        return Err(InvalidCborEncoding);
      }
      var ok := BumpItem(depth);
      if ok.Err? {
        return Err(ok.error);
      }
      var head := ReadTypeLen();
      if head.Err? {
        return Err(head.error);
      }
      var (major, len) := head.value;
      if major == 0 {
        return Ok(());
      } else if major == 2 || major == 3 {
        var b := TakeLen(len);
        if b.Err? {
          return Err(b.error);
        }
        if major == 3 && !ValidUtf8(b.value) {
          return Err(InvalidCborEncoding);
        }
        return Ok(());
      } else if major == 4 {
        r := SkipArray(depth + 1, len);
      } else if major == 5 {
        r := SkipMap(depth + 1, len);
      } else if major == 7 && 20 <= len <= 22 {
        return Ok(());
      } else {
        return Err(InvalidCborEncoding);
      }
    }

    method SkipArray(depth: nat, len: nat) returns (r: Outcome<()>)
      requires Valid()
      modifies this
      ensures Moved()
      ensures var v := Verdict(ParseAll(PROFILE, data, old(pos), depth, old(items), len));
        if v.Ok? then r == Ok(()) && pos == v.value.0 && items == v.value.1 && Paid(0) else r == Err(v.error)
      decreases |data| - pos, 1
    {
      hide Parse;
      ghost var goal := Verdict(ParseAll(PROFILE, data, pos, depth, items, len));
      var i := 0;
      while i < len
        invariant 0 <= i <= len && Moved() && Paid(0)
        invariant Verdict(ParseAll(PROFILE, data, pos, depth, items, len - i)) == goal
      {
        var item := SkipItem(depth);
        if item.Err? {
          return item;
        }
        i := i + 1;
      }
      return Ok(());
    }

    method SkipMap(depth: nat, len: nat) returns (r: Outcome<()>)
      requires Valid()
      modifies this
      ensures Moved()
      ensures var v := Verdict(ParseEntries(PROFILE, data, old(pos), depth, old(items), len, [], []));
        if v.Ok? then r == Ok(()) && pos == v.value.0 && items == v.value.1 && Paid(0) else r == Err(v.error)
      decreases |data| - pos, 1
    {
      hide Parse, Less;
      ghost var goal := Verdict(ParseEntries(PROFILE, data, pos, depth, items, len, [], []));
      ghost var keys: seq<Item> := [];
      var previous: Option<bytes> := None;
      var i := 0;
      while i < len
        invariant 0 <= i <= len && Moved() && Paid(0)
        invariant previous.Some? <==> |keys| > 0
        invariant Verdict(ParseEntries(PROFILE, data, pos, depth, items, len - i, keys,
                                       if previous.Some? then previous.value else [])) == goal
      {
        ghost var parsed := Parse(PROFILE, data, pos, depth, items);
        var start := pos;
        var key := SkipItem(depth);
        if key.Err? {
          return key;
        }
        var encoded := data[start..pos];
        if previous.Some? && !Less(previous.value, encoded) {
          return Err(InvalidCborEncoding);
        }
        previous := Some(encoded);
        keys := keys + [parsed.value.value];
        var value := SkipItem(depth);
        if value.Err? {
          return value;
        }
        i := i + 1;
      }
      return Ok(());
    }

    /** The value of one top-level key. */
    method DecodeValue(key: nat) returns (r: Outcome<Option<Item>>)
      requires Valid()
      modifies this
      ensures Moved()
      ensures var v := ReadValue(key, data, old(pos), old(items));
        if v.Ok? then
          && r == Ok(if key <= 3 then Some(v.value.value) else None)
          && pos == v.value.pos && items == v.value.items && Paid(1)
        else r == Err(v.error)
    {
      hide Parse, ReadScalar;
      if key > 3 {
        var skipped := SkipItem(1);
        return if skipped.Err? then Err(skipped.error) else Ok(None);
      }
      var value := DecodeScalar(Expected(key), InvalidMetadataField, 1);
      if value.Err? {
        return Err(value.error);
      }
      if key == 3 && |value.value.b| != 32 {
        return Err(InvalidMetadataField);
      }
      return Ok(Some(value.value));
    }

    method DecodeMetadataMap(chunkSize: nat) returns (r: Outcome<Meta>)
      requires Valid() && pos == 0 && items == 0
      modifies this
      ensures Moved()
      ensures FromCbor(data, chunkSize) == if r.Ok? && pos != |data| then Err(InvalidCborEncoding) else r
      ensures r.Ok? ==> Paid(1)
    {
      hide ReadHead, ReadEntries, ReadScalar, ReadValue, Validate;
      // the first item is always within the budget
      var _ := BumpItem(0);
      var head := ReadTypeLen();
      if head.Err? {
        return Err(head.error);
      }
      if head.value.0 != 5 || head.value.1 > MAX_ITEMS {
        return Err(InvalidCborEncoding);
      }
      var fields := CollectFields(head.value.1);
      if fields.Err? {
        return Err(fields.error);
      }
      return Finish(fields.value, chunkSize);
    }

    method CollectFields(len: nat) returns (r: Outcome<Fields>)
      requires Valid()
      modifies this
      ensures Moved()
      ensures var e := ReadEntries(data, old(pos), old(items), len, None, NO_FIELDS);
        if e.Ok? then r == Ok(e.value.value) && pos == e.value.pos && items == e.value.items && Paid(0)
        else r == Err(e.error)
    {
      hide ReadScalar, ReadValue, Less;
      ghost var goal := ReadEntries(data, pos, items, len, None, NO_FIELDS);
      var previous: Option<bytes> := None;
      var fields := NO_FIELDS;
      var i := 0;
      while i < len
        invariant 0 <= i <= len && Moved() && Paid(0)
        invariant ReadEntries(data, pos, items, len - i, previous, fields) == goal
      {
        var start := pos;
        var key := DecodeScalar(0, InvalidCborEncoding, 1);
        if key.Err? {
          return Err(key.error);
        }
        var encoded := data[start..pos];
        if previous.Some? && !Less(previous.value, encoded) {
          return Err(InvalidCborEncoding);
        }
        previous := Some(encoded);
        var value := DecodeValue(key.value.n);
        if value.Err? {
          return Err(value.error);
        }
        if value.value.Some? {
          fields := Store(fields, key.value.n, value.value.value);
        }
        i := i + 1;
      }
      return Ok(fields);
    }
  }

  method DecodeMetadata(data: bytes, chunkSize: nat) returns (r: Outcome<Meta>)
    ensures r == FromCbor(data, chunkSize)
  {
    hide FromCbor;
    var decoder := new Decoder(data);
    r := decoder.DecodeMetadataMap(chunkSize);
    if r.Ok? && decoder.pos != |data| {
      return Err(InvalidCborEncoding);
    }
  }
}
