/** Readers and writers as the envelope code meets them: both can fail part-way. */
module InputOutput {
  import opened Bits
  import opened Outcomes
  import opened ByteStrings
  import opened Envelope

  /** What a reader will deliver; a broken one then reports an I/O error instead of the end. */
  datatype Input = Input(data: bytes, broken: bool)

  /** Reading exactly `n` bytes from position `pos`. */
  function ReadAt(input: Input, pos: nat, n: nat): (r: Outcome<bytes>)
    ensures r.Ok? ==> pos + n <= |input.data| && r.value == input.data[pos..pos + n]
  {
    if pos + n <= |input.data| then Ok(input.data[pos..pos + n]) else Err(if input.broken then Io else UnexpectedEof)
  }

  class Source {
    const input: Input
    var pos: nat

    ghost predicate Valid()
      reads this
    {
      pos <= |input.data|
    }

    constructor (input: Input)
      ensures Valid() && this.input == input && pos == 0
    {
      this.input := input;
      pos := 0;
    }

    method ReadExact(n: nat) returns (r: Outcome<bytes>)
      requires Valid()
      modifies this
      ensures Valid() && r == ReadAt(input, old(pos), n)
      ensures r.Ok? ==> pos == old(pos) + n
    {
      r := ReadAt(input, pos, n);
      pos := if r.Ok? then pos + n else |input.data|;
    }

    method Seek(to: nat)
      modifies this
      ensures pos == if to <= |input.data| then to else |input.data|
    {
      pos := if to <= |input.data| then to else |input.data|;
    }

    /** One buffered read: at most `n` bytes, none at the end. */
    method Read(n: nat) returns (r: Outcome<bytes>)
      requires Valid() && n > 0
      modifies this
      ensures Valid() && old(pos) <= pos
      ensures old(pos) == |input.data| ==> r == if input.broken then Err(Io) else Ok([])
      ensures old(pos) < |input.data| ==> r.Ok? && |r.value| > 0 && pos == old(pos) + |r.value|
      ensures r.Ok? ==> r.value == input.data[old(pos)..pos]
    {
      if pos == |input.data| {
        return if input.broken then Err(Io) else Ok([]);
      }
      var take := if |input.data| - pos < n then |input.data| - pos else n;
      r := Ok(input.data[pos..pos + take]);
      pos := pos + take;
    }

    /** Whether the reader is exhausted, found by asking for one more byte; `more` reports that there was one. */
    method EnsureEof(more: Error) returns (r: Outcome<()>)
      requires Valid()
      modifies this
      ensures Valid()
      ensures r == if old(pos) < |input.data| then Err(more) else if input.broken then Err(Io) else Ok(())
    {
      if pos < |input.data| {
        pos := pos + 1;
        return Err(more);
      }
      return if input.broken then Err(Io) else Ok(());
    }
  }

  class Sink {
    /** How many bytes the writer takes before it fails, if it ever does. */
    const capacity: Option<nat>
    var written: bytes
    var failed: bool

    constructor (capacity: Option<nat>)
      ensures this.capacity == capacity && written == [] && !failed
    {
      this.capacity := capacity;
      written, failed := [], false;
    }

    method WriteAll(b: bytes) returns (r: Outcome<()>)
      modifies this
      ensures r == if failed then Err(Io) else Ok(())
      ensures capacity.None? ==> !failed
      ensures old(written) <= written <= old(written) + b
      ensures !failed ==> written == old(written) + b
    {
      var room := if capacity.None? || |written| + |b| <= capacity.value then |b|
                  else if |written| <= capacity.value then capacity.value - |written| else 0;
      written := written + b[..room];
      failed := room < |b|;
      return if failed then Err(Io) else Ok(());
    }
  }
}
