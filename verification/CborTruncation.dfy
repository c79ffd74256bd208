/** Truncated encodings: every proper prefix of accepted bytes is refused as too short, not as malformed. */
module CborTruncation {
  import opened Bits
  import opened Outcomes
  import opened ByteStrings
  import opened Utf8
  import opened Cbor

  lemma CutHead(data: bytes, n: nat, pos: nat)
    requires pos <= n <= |data| && ReadHead(data, pos).Ok?
    ensures ReadHead(data[..n], pos) == if ReadHead(data, pos).value.pos <= n then ReadHead(data, pos) else Err(Eof)
  {
    hide FromBigEndian, BigEndian, Pow256;
    var cut, end := data[..n], ReadHead(data, pos).value.pos;
    if pos < n {
      assert cut[pos] == data[pos];
      if end <= n {
        assert cut[pos + 1..end] == data[pos + 1..end];
      }
    }
  }

  lemma CutTake(data: bytes, n: nat, pos: nat, len: nat)
    requires pos <= n <= |data| < U64_LIMIT && Take(data, pos, len).Ok?
    ensures Take(data[..n], pos, len) == if pos + len <= n then Take(data, pos, len) else Err(Eof)
  {
    if pos + len <= n {
      assert data[..n][pos..pos + len] == data[pos..pos + len];
    }
  }

  /** Reading a prefix: the same item if the prefix holds all of it, and otherwise the end of the input. */
  lemma {:induction false} CutParse(p: Profile, data: bytes, n: nat, pos: nat, depth: nat, items: nat)
    requires pos <= n <= |data| < U64_LIMIT && Parse(p, data, pos, depth, items).Ok?
    ensures
      var r := Parse(p, data, pos, depth, items);
      Parse(p, data[..n], pos, depth, items) == if r.value.pos <= n then r else Err(Eof)
    decreases |data| - pos, 0
  {
    hide ReadHead, Take, ValidUtf8, ParseAll, ParseEntries;
    CutHead(data, n, pos);
    var HeadRead(major, value, at) := ReadHead(data, pos).value;
    if at <= n {
      if major == 2 || major == 3 {
        CutTake(data, n, at, value);
      } else if major == 4 {
        CutAll(p, data, n, at, depth + 1, items + 1, value);
      } else if major == 5 {
        CutEntries(p, data, n, at, depth + 1, items + 1, value, [], []);
      }
    }
  }

  lemma {:induction false} CutAll(p: Profile, data: bytes, n: nat, pos: nat, depth: nat, items: nat, count: nat)
    requires pos <= n <= |data| < U64_LIMIT && ParseAll(p, data, pos, depth, items, count).Ok?
    ensures
      var r := ParseAll(p, data, pos, depth, items, count);
      ParseAll(p, data[..n], pos, depth, items, count) == if r.value.pos <= n then r else Err(Eof)
    decreases |data| - pos, 1
  {
    hide Parse;
    if count > 0 {
      CutParse(p, data, n, pos, depth, items);
      var first := Parse(p, data, pos, depth, items).value;
      if first.pos <= n {
        CutAll(p, data, n, first.pos, depth, first.items, count - 1);
      }
    }
  }

  lemma {:induction false} CutEntries(p: Profile, data: bytes, n: nat, pos: nat, depth: nat, items: nat, count: nat,
      earlier: seq<Item>, previous: bytes)
    requires pos <= n <= |data| < U64_LIMIT
    requires ParseEntries(p, data, pos, depth, items, count, earlier, previous).Ok?
    ensures
      var r := ParseEntries(p, data, pos, depth, items, count, earlier, previous);
      ParseEntries(p, data[..n], pos, depth, items, count, earlier, previous)
        == if r.value.pos <= n then r else Err(Eof)
    decreases |data| - pos, 1
  {
    hide Parse, Before, KeyAllowed;
    if count > 0 {
      CutParse(p, data, n, pos, depth, items);
      var key := Parse(p, data, pos, depth, items).value;
      if key.pos <= n {
        var encoded := data[pos..key.pos];
        assert data[..n][pos..key.pos] == encoded;
        CutParse(p, data, n, key.pos, depth, key.items);
        var value := Parse(p, data, key.pos, depth, key.items).value;
        if value.pos <= n {
          CutEntries(p, data, n, value.pos, depth, value.items, count - 1, earlier + [key.value], encoded);
        }
      }
    }
  }

  /** Every proper prefix of accepted bytes is too short. */
  lemma PrefixIsTooShort(p: Profile, data: bytes, n: nat)
    requires |data| < U64_LIMIT && n < |data|
    requires Parse(p, data, 0, 0, 0).Ok? && Parse(p, data, 0, 0, 0).value.pos == |data|
    ensures Parse(p, data[..n], 0, 0, 0) == Err(Eof)
  {
    hide Parse;
    CutParse(p, data, n, 0, 0, 0);
  }
}
