/**
  Pax records as bytes: written in key order, and read back by the reader of the archive format.

  The reader refuses control characters in keywords that the writer takes, so it reads back
  what was written exactly when there are none.
 */
module PaxRecords {
  import opened Bits
  import opened Outcomes
  import opened ByteStrings
  import opened Utf8
  import opened Pax

  // ----- records

  datatype Record = Record(key: bytes, value: bytes)

  function RecordLen(r: Record): nat {
    PaxLen(|r.key| + |r.value| + 3)
  }

  /** Length, space, key, equals sign, value, newline. */
  function EncodeRecord(r: Record): bytes {
    Decimal(RecordLen(r)) + [32] + r.key + [61] + r.value + [10]
  }

  /** A record states its own length. */
  lemma RecordStatesLength(r: Record)
    ensures |EncodeRecord(r)| == RecordLen(r)
  {
    hide PaxLen, Decimal, Digits;
    PaxLenIsLeast(|r.key| + |r.value| + 3);
  }

  /** For example: key "a", value "b". */
  lemma RecordExample()
    ensures EncodeRecord(Record(Ascii("a"), Ascii("b"))) == Ascii("6 a=b\n")
  {
    var r := Record(Ascii("a"), Ascii("b"));
    assert RecordLen(r) == 6 && Decimal(6) == [54];
  }

  function EncodeRecords(rs: seq<Record>): bytes {
    if |rs| == 0 then [] else EncodeRecord(rs[0]) + EncodeRecords(rs[1..])
  }

  function RecordsLen(rs: seq<Record>): nat {
    if |rs| == 0 then 0 else RecordLen(rs[0]) + RecordsLen(rs[1..])
  }

  lemma {:induction false} EncodedLength(rs: seq<Record>)
    ensures |EncodeRecords(rs)| == RecordsLen(rs)
  {
    hide EncodeRecord, RecordLen;
    if |rs| > 0 {
      RecordStatesLength(rs[0]);
      EncodedLength(rs[1..]);
    }
  }

  /** The records follow one another in the order given. */
  lemma {:induction false} RecordStands(rs: seq<Record>, i: nat)
    requires i < |rs|
    ensures At(EncodeRecords(rs), RecordsLen(rs[..i]), EncodeRecord(rs[i]))
    decreases i
  {
    hide EncodeRecord, RecordLen, At;
    var first, rest := EncodeRecord(rs[0]), EncodeRecords(rs[1..]);
    if i == 0 {
      AtItself(first);
      AtPrefix(first, rest, 0, first);
    } else {
      RecordStands(rs[1..], i - 1);
      RecordStatesLength(rs[0]);
      assert rs[..i][1..] == rs[1..][..i - 1];
      AtSuffix(first, rest, RecordsLen(rs[1..][..i - 1]), EncodeRecord(rs[i]));
    }
  }

  /** Records are written in key order. */
  function Insert(r: Record, rs: seq<Record>): seq<Record> {
    if |rs| == 0 || Less(r.key, rs[0].key) then [r] + rs else [rs[0]] + Insert(r, rs[1..])
  }

  lemma {:induction false} InsertAddsLength(r: Record, rs: seq<Record>)
    ensures RecordsLen(Insert(r, rs)) == RecordsLen(rs) + RecordLen(r)
    decreases |rs|
  {
    hide RecordLen;
    var all := Insert(r, rs);
    if |rs| == 0 || Less(r.key, rs[0].key) {
      assert all[1..] == rs;
    } else {
      assert all[1..] == Insert(r, rs[1..]);
      InsertAddsLength(r, rs[1..]);
    }
  }

  ghost predicate KeysAscend(rs: seq<Record>) {
    forall i, j :: 0 <= i < j < |rs| ==> Less(rs[i].key, rs[j].key)
  }

  /** Inserting a record with a new key adds it and keeps the order. */
  lemma {:induction false} InsertKeepsOrder(r: Record, rs: seq<Record>)
    requires KeysAscend(rs) && forall i :: 0 <= i < |rs| ==> rs[i].key != r.key
    ensures KeysAscend(Insert(r, rs)) && multiset(Insert(r, rs)) == multiset(rs) + multiset{r}
    decreases |rs|
  {
    hide Less;
    var all := Insert(r, rs);
    if |rs| == 0 {
    } else if Less(r.key, rs[0].key) {
      assert rs == [rs[0]] + rs[1..];
      forall j | 0 < j < |all| ensures Less(all[0].key, all[j].key) {
        if j > 1 {
          LessTransitive(r.key, rs[0].key, rs[j - 1].key);
        }
      }
    } else {
      LessTrichotomy(r.key, rs[0].key);
      InsertKeepsOrder(r, rs[1..]);
      assert rs == [rs[0]] + rs[1..];
      InFront(rs[0], rs[1..], r, Insert(r, rs[1..]));
    }
  }

  lemma InFront(first: Record, rest: seq<Record>, r: Record, tail: seq<Record>)
    requires KeysAscend([first] + rest) && Less(first.key, r.key)
    requires KeysAscend(tail) && multiset(tail) == multiset(rest) + multiset{r}
    ensures KeysAscend([first] + tail)
  {
    hide Less;
    var all := [first] + rest;
    forall j | 0 <= j < |tail| ensures Less(first.key, tail[j].key) {
      assert tail[j] in multiset(tail);
      if tail[j] != r {
        var i :| 0 <= i < |rest| && rest[i] == tail[j];
        assert all[0] == first && all[i + 1] == rest[i];
      }
    }
  }

  // ----- reading

  /** The first place of a byte, or the length when it does not occur. */
  function Position(s: bytes, b: byte): (i: nat)
    ensures i <= |s| && (i < |s| ==> s[i] == b) && forall j :: 0 <= j < i ==> s[j] != b
  {
    if |s| == 0 || s[0] == b then 0 else 1 + Position(s[1..], b)
  }

  predicate IsDigit(b: byte) {
    48 <= b <= 57
  }

  predicate AllDigits(s: bytes) {
    forall i :: 0 <= i < |s| ==> IsDigit(s[i])
  }

  function FromDecimal(s: bytes): nat
    requires AllDigits(s)
  {
    if |s| == 0 then 0 else 10 * FromDecimal(s[..|s| - 1]) + (s[|s| - 1] - 48)
  }

  predicate Control(b: byte) {
    b < 0x20 || b == 0x7F
  }

  /** `validate_pax_keyword`. */
  predicate Readable(key: bytes) {
    |key| > 0 && forall i :: 0 <= i < |key| ==> key[i] < 0x80 && !Control(key[i]) && key[i] != 61
  }

  predicate ValueOk(value: bytes) {
    ValidUtf8(value) && forall i :: 0 <= i < |value| ==> value[i] >= 0x20
  }

  /** One record from the front of a nonempty body, and what follows it. */
  function ReadRecord(body: bytes): (r: Option<(Record, bytes)>)
    ensures r.Some? ==> |r.value.1| < |body|
  {
    var space := Position(body, 32);
    if space == |body| || space == 0 || !AllDigits(body[..space]) then None
    else
      var length := FromDecimal(body[..space]);
      if length >= U64_LIMIT || length == 0 || length > |body| || body[length - 1] != 10 then None
      else
        assert length - 1 > space by { assert length - 1 < space ==> IsDigit(body[..space][length - 1]); }
        var inner := body[space + 1..length - 1];
        var equals := Position(inner, 61);
        if equals == |inner| || !Readable(inner[..equals]) || !ValueOk(inner[equals + 1..]) then None
        else Some((Record(inner[..equals], inner[equals + 1..]), body[length..]))
  }

  /** All records of a body, on top of those read before; a later record of the same key wins. */
  function ReadRecords(body: bytes, before: map<bytes, bytes>): Option<map<bytes, bytes>>
    decreases |body|
  {
    if |body| == 0 then Some(before)
    else
      var r := ReadRecord(body);
      if r.None? then None else ReadRecords(r.value.1, before[r.value.0.key := r.value.0.value])
  }

  /** One turn of the reader's loop; none of its slices is out of bounds. */
  method TakeRecord(body: bytes) returns (r: Option<(Record, bytes)>)
    ensures r == ReadRecord(body)
  {
    hide Position, FromDecimal, Readable, ValueOk;
    var space := Position(body, 32);
    if space == |body| || space == 0 || !AllDigits(body[..space]) {
      return None;
    }
    var length := FromDecimal(body[..space]);
    if length >= U64_LIMIT || length == 0 || length > |body| {
      return None;
    }
    var record := body[..length];
    if record[length - 1] != 10 {
      return None;
    }
    assert length - 1 < space ==> IsDigit(body[..space][length - 1]);
    var inner := record[space + 1..length - 1];
    assert inner == body[space + 1..length - 1];
    var equals := Position(inner, 61);
    if equals == |inner| {
      return None;
    }
    var key, value := inner[..equals], inner[equals + 1..];
    if !Readable(key) || !ValueOk(value) {
      return None;
    }
    return Some((Record(key, value), body[length..]));
  }

  /** `parse_pax_records`. */
  method ParsePaxRecords(all: bytes) returns (r: Option<map<bytes, bytes>>)
    ensures r == ReadRecords(all, map[])
  {
    hide ReadRecord;
    var body, records := all, map[];
    while |body| > 0
      invariant ReadRecords(all, map[]) == ReadRecords(body, records)
      decreases |body|
    {
      var record := TakeRecord(body);
      if record.None? {
        return None;
      }
      records := records[record.value.0.key := record.value.0.value];
      body := record.value.1;
    }
    return Some(records);
  }

  // ----- reading what was written

  /** What the writer of the archive format checks of a record. */
  predicate Writable(r: Record) {
    && |r.key| > 0 && (forall i :: 0 <= i < |r.key| ==> r.key[i] < 0x80 && r.key[i] !in [61, 10, 0])
    && ValueOk(r.value)
  }

  predicate HasControl(key: bytes) {
    exists i :: 0 <= i < |key| && Control(key[i])
  }

  lemma {:induction false} DecimalReads(n: nat)
    ensures AllDigits(Decimal(n)) && FromDecimal(Decimal(n)) == n
  {
    if n >= 10 {
      DecimalReads(n / 10);
      var s := Decimal(n);
      assert s[..|s| - 1] == Decimal(n / 10);
    }
  }

  lemma PositionIs(s: bytes, b: byte, i: nat)
    requires i < |s| && s[i] == b && forall j :: 0 <= j < i ==> s[j] != b
    ensures Position(s, b) == i
  {
  }

  lemma RecordParts(r: Record, rest: bytes)
    ensures
      var body, space, length := EncodeRecord(r) + rest, |Decimal(RecordLen(r))|, RecordLen(r);
      && space + 1 < length <= |body| && body[..space] == Decimal(length) && body[space] == 32
      && body[space + 1..length - 1] == r.key + [61] + r.value && body[length - 1] == 10 && body[length..] == rest
  {
    hide PaxLen, Decimal;
    RecordStatesLength(r);
    var inner := r.key + [61] + r.value;
    assert EncodeRecord(r) + rest == Decimal(RecordLen(r)) + [32] + inner + [10] + rest;
  }

  /** A written record is read back, with what follows it, exactly when its key has no control character. */
  lemma ReadsRecord(r: Record, rest: bytes)
    requires Writable(r) && RecordLen(r) < U64_LIMIT
    ensures ReadRecord(EncodeRecord(r) + rest) == if HasControl(r.key) then None else Some((r, rest))
  {
    hide PaxLen, Decimal, Digits, FromDecimal, Position, ValidUtf8, EncodeRecord, RecordLen;
    var length := RecordLen(r);
    var inner := r.key + [61] + r.value;
    var body := EncodeRecord(r) + rest;
    RecordParts(r, rest);
    DecimalReads(length);
    var space := |Decimal(length)|;
    assert forall j :: 0 <= j < space ==> body[j] == body[..space][j];
    PositionIs(body, 32, space);
    assert inner[|r.key|] == 61;
    PositionIs(inner, 61, |r.key|);
    assert inner[..|r.key|] == r.key && inner[|r.key| + 1..] == r.value;
  }

  /** The records as a map. */
  function Collect(rs: seq<Record>, before: map<bytes, bytes>): map<bytes, bytes> {
    if |rs| == 0 then before else Collect(rs[1..], before[rs[0].key := rs[0].value])
  }

  lemma {:induction false} ReadsAll(rs: seq<Record>, before: map<bytes, bytes>)
    requires forall r :: r in rs ==> Writable(r) && RecordLen(r) < U64_LIMIT
    ensures ReadRecords(EncodeRecords(rs), before)
         == if exists r :: r in rs && HasControl(r.key) then None else Some(Collect(rs, before))
    decreases |rs|
  {
    hide EncodeRecord, ReadRecord, HasControl, Writable, RecordLen;
    if |rs| > 0 {
      var r, rest := rs[0], rs[1..];
      assert r in rs && rs == [r] + rest;
      ReadsRecord(r, EncodeRecords(rest));
      ReadsAll(rest, before[r.key := r.value]);
      RecordIsNotEmpty(r);
    }
  }

  lemma RecordIsNotEmpty(r: Record)
    ensures |EncodeRecord(r)| > 0
  {
  }

  lemma {:induction false} CollectsEach(rs: seq<Record>, before: map<bytes, bytes>)
    requires KeysAscend(rs)
    ensures var m := Collect(rs, before);
      && (forall i :: 0 <= i < |rs| ==> rs[i].key in m && m[rs[i].key] == rs[i].value)
      && (forall k :: k in m ==> k in before || exists i :: 0 <= i < |rs| && rs[i].key == k)
      && (forall k :: k in before && (forall i :: 0 <= i < |rs| ==> rs[i].key != k) ==> k in m && m[k] == before[k])
    decreases |rs|
  {
    hide Less;
    if |rs| > 0 {
      var next := before[rs[0].key := rs[0].value];
      CollectsEach(rs[1..], next);
      forall i | 0 < i < |rs| ensures rs[i].key != rs[0].key && rs[i] == rs[1..][i - 1] {
        LessTrichotomy(rs[0].key, rs[i].key);
      }
    }
  }

  /**
   The reader takes the records that the writer wrote, each key with its value and nothing else, exactly when no key has
   a control character.
   */
  lemma ReadsWhatWasWritten(rs: seq<Record>)
    requires KeysAscend(rs) && forall r :: r in rs ==> Writable(r) && RecordLen(r) < U64_LIMIT
    ensures
      var read := ReadRecords(EncodeRecords(rs), map[]);
      && (read.None? <==> exists r :: r in rs && HasControl(r.key))
      && (read.Some? ==>
          && (forall i :: 0 <= i < |rs| ==> rs[i].key in read.value && read.value[rs[i].key] == rs[i].value)
          && (forall k :: k in read.value ==> exists i :: 0 <= i < |rs| && rs[i].key == k))
  {
    hide ReadRecords, EncodeRecords, KeysAscend, HasControl, Writable, RecordLen;
    ReadsAll(rs, map[]);
    CollectsEach(rs, map[]);
  }

  /** The writer takes the key "a", tab, "b"; the reader refuses the record. */
  lemma TabIsNotReadBack()
    ensures var r := Record([97, 9, 98], []);
      Writable(r) && ReadRecords(EncodeRecords([r]), map[]) == None
  {
    hide ReadRecords, EncodeRecords, RecordLen;
    var r := Record([97, 9, 98], []);
    assert Control(r.key[1]);
    ShortRecord(r);
    assert r in [r] && HasControl(r.key);
    ReadsAll([r], map[]);
  }

  lemma ShortRecord(r: Record)
    requires |r.key| == 3 && |r.value| == 0
    ensures RecordLen(r) < U64_LIMIT
  {
  }
}
