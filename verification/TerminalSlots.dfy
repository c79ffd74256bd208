/** Fixed-size slots of the terminal index: a 16-bit length, one deterministic CBOR value, zero padding. */
module TerminalSlots {
  import opened Bits
  import opened Outcomes
  import opened ByteStrings
  import opened Cbor

  /** Length-first key order, integer keys only, negative integers, no limits of its own. */
  const PROFILE := Profile(None, None, true, true, IntegerKey)

  function Little16(n: nat): (b: bytes)
    requires n < U16_LIMIT
    ensures |b| == 2
  {
    [n % 256, n / 256]
  }

  lemma Little16Inverse(b: bytes)
    requires |b| == 2
    ensures Little(b) == b[0] + 256 * b[1] < U16_LIMIT && Little16(Little(b)) == b
  {
    assert Little(b[1..]) == b[1] + 256 * Little(b[1..][1..]);
  }

  lemma LittleOf16(n: nat)
    requires n < U16_LIMIT
    ensures Little(Little16(n)) == n
  {
    Little16Inverse(Little16(n));
  }

  /** The slot of `size` bytes that holds `v`. */
  function Slot(v: Item, size: nat): bytes
    requires |Print(v)| < U16_LIMIT && |Print(v)| + 2 <= size
  {
    Little16(|Print(v)|) + Print(v) + Zeros(size - 2 - |Print(v)|)
  }

  /** The length, lowest byte first, the encoding, and zeros. */
  lemma SlotLayout(v: Item, size: nat)
    requires |Print(v)| < U16_LIMIT && |Print(v)| + 2 <= size
    ensures
      var slot, len := Slot(v, size), |Print(v)|;
      && |slot| == size && slot[0] == len % 256 && slot[1] == len / 256 && slot[2..2 + len] == Print(v)
      && forall i :: 2 + len <= i < size ==> slot[i] == 0
  {
    hide Print;
  }

  function DecodeSlot(slot: bytes, size: nat): Option<(Item, bytes)> {
    if |slot| != size || size < 2 then None
    else
      var len := Little(slot[..2]);
      if len == 0 || len > size - 2 then None
      else
        var encoded := slot[2..2 + len];
        if !AllZero(slot[2 + len..]) then None
        else
          var r := Parse(PROFILE, encoded, 0, 0, 0);
          if r.Err? || r.value.pos != |encoded| || Print(r.value.value) != encoded then None
          else Some((r.value.value, encoded))
  }

  /** A slot decodes to `v` exactly when it is the slot of `v` and `v` is admitted. */
  lemma DecodesExactly(slot: bytes, size: nat, v: Item, encoded: bytes)
    requires size < U16_LIMIT
    ensures DecodeSlot(slot, size) == Some((v, encoded))
       <==> encoded == Print(v) && Admits(PROFILE, 0, v) && |Print(v)| + 2 <= size && slot == Slot(v, size)
  {
    hide Parse, Print, Admits, Little, Little16;
    if DecodeSlot(slot, size) == Some((v, encoded)) {
      var len := Little(slot[..2]);
      Little16Inverse(slot[..2]);
      Sound(PROFILE, encoded, 0, 0, 0);
      AllZeroIsZeros(slot[2 + len..]);
      assert slot == slot[..2] + slot[2..2 + len] + slot[2 + len..];
    }
    if encoded == Print(v) && Admits(PROFILE, 0, v) && |Print(v)| + 2 <= size && slot == Slot(v, size) {
      LittleOf16(|Print(v)|);
      var len := |Print(v)|;
      assert slot[..2] == Little16(len) && slot[2..2 + len] == Print(v) && slot[2 + len..] == Zeros(size - 2 - len);
      AllZeroIsZeros(slot[2 + len..]);
      Complete(PROFILE, encoded, 0, 0, 0, v);
    }
  }

  /** The check that the decoded value encodes to the same bytes refuses nothing: strict decoding already implies it. */
  lemma ReencodingIsRedundant(encoded: bytes)
    ensures var r := Parse(PROFILE, encoded, 0, 0, 0);
      r.Ok? && r.value.pos == |encoded| ==> Print(r.value.value) == encoded
  {
    hide Parse, Print, Admits, Size;
    if Parse(PROFILE, encoded, 0, 0, 0).Ok? {
      Sound(PROFILE, encoded, 0, 0, 0);
    }
  }

  /** Slots hold maps with integer keys of either sign, shorter encodings first: -1 comes before 24. */
  lemma KeyExamples()
    ensures Admits(PROFILE, 0, Map([Entry(Negative(0), NULL), Entry(Unsigned(24), NULL)]))
    ensures !Admits(PROFILE, 0, Map([Entry(Unsigned(24), NULL), Entry(Negative(0), NULL)]))
    ensures !Admits(PROFILE, 0, Map([Entry(NULL, NULL)]))
  {
    hide Less;
    var e, f, g := Entry(Negative(0), NULL), Entry(Unsigned(24), NULL), Entry(NULL, NULL);
    NumberExamples();
    OneKey(PROFILE, e);
    OneKey(PROFILE, f);
    OneKey(PROFILE, g);
    TwoKeys(PROFILE, e, f);
    TwoKeys(PROFILE, f, e);
  }
}
