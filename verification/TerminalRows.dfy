/** The structural map of a tape: one row per file, checked by running counters; what acceptance says about ordinals. */
module TerminalRows {
  import opened Bits
  import opened Outcomes
  import opened ByteStrings
  import opened Cbor

  /** What one row says of its file. Kinds 2 (bootstrap) and 3 carry no ordinals. */
  datatype Row =
    | Object(blocks: nat, first: nat)
    | Sidecar(blocks: nat, start: nat, end: nat, epoch: nat)
    | Control(kind: nat, blocks: nat)

  datatype Locator = Locator(file: nat, blocks: nat)

  // ----- the walk

  /** The running counters. */
  datatype Walk = Walk(
    rows: seq<Row>, file: nat, data: nat, protected: nat, epoch: nat, prefixEnd: nat, locators: seq<Locator>)

  const START := Walk([], 0, 0, 0, 0, 0, [])

  /** The row a decoded value stands for at this point of the walk, if every check passes. */
  function ReadRow(w: Walk, v: Item): Option<Row> {
    if !v.Array? || |v.items| != 7 then None
    else
      var tapeFile, kind, blocks, first := v.items[0], v.items[1], v.items[2], v.items[3];
      var start, end, epoch := v.items[4], v.items[5], v.items[6];
      if !(tapeFile.Unsigned? && kind.Unsigned? && blocks.Unsigned?) then None
      else if tapeFile.n != w.file || blocks.n == 0 || kind.n > 3 then None
      else if |w.rows| == 0 && !(kind.n == 2 && blocks.n == 1) then None
      else if kind.n == 0 then
        if first.Unsigned? && first.n == w.data && start == NULL && end == NULL && epoch == NULL
        then Some(Object(blocks.n, first.n)) else None
      else if kind.n == 1 then
        if first == NULL && start.Unsigned? && start.n == w.protected && end.Unsigned? && end.n > start.n
           && epoch.Unsigned? && epoch.n == w.epoch
        then Some(Sidecar(blocks.n, start.n, end.n, epoch.n)) else None
      else if first == NULL && start == NULL && end == NULL && epoch == NULL && (kind.n != 2 || blocks.n == 1)
      then Some(Control(kind.n, blocks.n))
      else None
  }

  /** The counters after a row; None when one of them no longer fits 64 bits. */
  function Advance(w: Walk, row: Row): Option<Walk> {
    var data := w.data + DataSpan(row);
    var end := w.prefixEnd + row.blocks + 1;
    if data >= U64_LIMIT || end >= U64_LIMIT then None
    else Some(Walk(
      w.rows + [row], w.file + 1, data, w.protected + ProtectedSpan(row), w.epoch + SidecarSpan(row), end,
      w.locators + (if row.Object? then [Locator(w.file, row.blocks)] else [])))
  }

  function Step(w: Walk, v: Item): Option<Walk> {
    var row := ReadRow(w, v);
    if row.None? then None else Advance(w, row.value)
  }

  function WalkAll(vs: seq<Item>): Option<Walk> {
    if |vs| == 0 then Some(START)
    else
      var w := WalkAll(vs[..|vs| - 1]);
      if w.None? then None else Step(w.value, vs[|vs| - 1])
  }

  // ----- sums over rows

  function DataSpan(r: Row): nat {
    if r.Object? then r.blocks else 0
  }

  function ProtectedSpan(r: Row): nat {
    if r.Sidecar? && r.start <= r.end then r.end - r.start else 0
  }

  function SidecarSpan(r: Row): nat {
    if r.Sidecar? then 1 else 0
  }

  /** A file's blocks and its filemark. */
  function FileSpan(r: Row): nat {
    r.blocks + 1
  }

  function Sum(f: Row -> nat, rows: seq<Row>): nat {
    if |rows| == 0 then 0 else Sum(f, rows[..|rows| - 1]) + f(rows[|rows| - 1])
  }

  function Locators(rows: seq<Row>): seq<Locator> {
    if |rows| == 0 then []
    else
      var n := |rows| - 1;
      Locators(rows[..n]) + (if rows[n].Object? then [Locator(n, rows[n].blocks)] else [])
  }

  lemma SumAt(f: Row -> nat, rows: seq<Row>, i: nat)
    requires i < |rows|
    ensures Sum(f, rows[..i + 1]) == Sum(f, rows[..i]) + f(rows[i])
  {
    assert rows[..i + 1][..i] == rows[..i];
  }

  lemma {:induction false} SumMonotone(f: Row -> nat, rows: seq<Row>, i: nat, j: nat)
    requires i <= j <= |rows|
    ensures Sum(f, rows[..i]) <= Sum(f, rows[..j])
    decreases j
  {
    if i < j {
      SumAt(f, rows, j - 1);
      SumMonotone(f, rows, i, j - 1);
    }
  }

  /** `d` falls in the stretch that row `i` adds to the sum. */
  ghost predicate Holds(f: Row -> nat, rows: seq<Row>, i: nat, d: nat) {
    i < |rows| && Sum(f, rows[..i]) <= d < Sum(f, rows[..i + 1])
  }

  lemma {:induction false} SomeHolds(f: Row -> nat, rows: seq<Row>, n: nat, d: nat) returns (i: nat)
    requires n <= |rows| && d < Sum(f, rows[..n])
    ensures i < n && Holds(f, rows, i, d)
    decreases n
  {
    SumAt(f, rows, n - 1);
    if Sum(f, rows[..n - 1]) <= d {
      i := n - 1;
    } else {
      i := SomeHolds(f, rows, n - 1, d);
    }
  }

  lemma OnlyOneHolds(f: Row -> nat, rows: seq<Row>, i: nat, j: nat, d: nat)
    requires Holds(f, rows, i, d) && Holds(f, rows, j, d)
    ensures i == j
  {
    hide Sum;
    if i < j {
      SumMonotone(f, rows, i + 1, j);
    } else if j < i {
      SumMonotone(f, rows, j + 1, i);
    }
  }

  // ----- what the rows of an accepted map satisfy

  /** The ordinals a row states are the sums of what came before it. */
  ghost predicate RowFits(rows: seq<Row>, i: nat)
    requires i < |rows|
  {
    var r, before := rows[i], rows[..i];
    && r.blocks > 0
    && (r.Object? ==> r.first == Sum(DataSpan, before))
    && (r.Sidecar? ==> r.start == Sum(ProtectedSpan, before) && r.start < r.end && r.epoch == Sum(SidecarSpan, before))
    && (r.Control? ==> (r.kind == 2 && r.blocks == 1) || r.kind == 3)
    && (i == 0 ==> r == Control(2, 1))
  }

  ghost predicate RowsFit(rows: seq<Row>) {
    forall i :: 0 <= i < |rows| ==> RowFits(rows, i)
  }

  /** The item that encodes row `i`. */
  function RowItem(i: nat, r: Row): Item {
    match r
    case Object(blocks, first) => Array([Unsigned(i), Unsigned(0), Unsigned(blocks), Unsigned(first), NULL, NULL, NULL])
    case Sidecar(blocks, start, end, epoch) =>
      Array([Unsigned(i), Unsigned(1), Unsigned(blocks), NULL, Unsigned(start), Unsigned(end), Unsigned(epoch)])
    case Control(kind, blocks) => Array([Unsigned(i), Unsigned(kind), Unsigned(blocks), NULL, NULL, NULL, NULL])
  }

  /** The walk accepts exactly the items of fitting rows whose sums fit 64 bits, and its counters are those sums. */
  ghost predicate Fitting(vs: seq<Item>, w: Walk) {
    && |vs| == |w.rows| && RowsFit(w.rows)
    && (forall i :: 0 <= i < |vs| ==> vs[i] == RowItem(i, w.rows[i]))
    && w.file == |vs| && w.data == Sum(DataSpan, w.rows) < U64_LIMIT && w.protected == Sum(ProtectedSpan, w.rows)
    && w.epoch == Sum(SidecarSpan, w.rows) && w.prefixEnd == Sum(FileSpan, w.rows) < U64_LIMIT
    && w.locators == Locators(w.rows)
  }

  lemma ReadRowExactly(w: Walk, v: Item, row: Row)
    requires w.file == |w.rows| && w.data == Sum(DataSpan, w.rows) && w.protected == Sum(ProtectedSpan, w.rows)
    requires w.epoch == Sum(SidecarSpan, w.rows)
    ensures ReadRow(w, v) == Some(row) <==> v == RowItem(w.file, row) && RowFits(w.rows + [row], |w.rows|)
  {
    hide Sum;
    var rows := w.rows + [row];
    assert rows[..|w.rows|] == w.rows && rows[|w.rows|] == row;
    if ReadRow(w, v) == Some(row) {
      assert v.items == [v.items[0], v.items[1], v.items[2], v.items[3], v.items[4], v.items[5], v.items[6]];
    }
  }

  lemma FitsLast(rows: seq<Row>, row: Row)
    ensures RowsFit(rows + [row]) <==> RowsFit(rows) && RowFits(rows + [row], |rows|)
  {
    hide Sum;
    var all := rows + [row];
    forall i | 0 <= i < |rows|
      ensures RowFits(all, i) <==> RowFits(rows, i)
    {
      assert all[..i] == rows[..i] && all[i] == rows[i];
    }
  }

  lemma SumLast(f: Row -> nat, rows: seq<Row>, row: Row)
    ensures Sum(f, rows + [row]) == Sum(f, rows) + f(row)
  {
    assert (rows + [row])[..|rows|] == rows;
  }

  lemma LocatorsLast(rows: seq<Row>, row: Row)
    ensures Locators(rows + [row]) == Locators(rows) + (if row.Object? then [Locator(|rows|, row.blocks)] else [])
  {
    assert (rows + [row])[..|rows|] == rows;
  }

  lemma {:induction false} WalkIsFitting(vs: seq<Item>)
    requires WalkAll(vs).Some?
    ensures Fitting(vs, WalkAll(vs).value)
    decreases |vs|
  {
    hide Sum, RowFits, ReadRow, RowItem, RowsFit, Locators;
    if |vs| == 0 {
      NoRows();
    } else {
      var n := |vs| - 1;
      WalkIsFitting(vs[..n]);
      var before, after := WalkAll(vs[..n]).value, WalkAll(vs).value;
      var row := ReadRow(before, vs[n]).value;
      ReadRowExactly(before, vs[n], row);
      Extends(before.rows, row);
      forall i | 0 <= i < |vs|
        ensures vs[i] == RowItem(i, after.rows[i])
      {
        if i < n {
          assert vs[i] == vs[..n][i] && after.rows[i] == before.rows[i];
        }
      }
    }
  }

  lemma NoRows()
    ensures RowsFit([]) && Locators([]) == []
    ensures Sum(DataSpan, []) == Sum(ProtectedSpan, []) == Sum(SidecarSpan, []) == Sum(FileSpan, []) == 0
  {
  }

  lemma Extends(rows: seq<Row>, row: Row)
    ensures RowsFit(rows + [row]) <==> RowsFit(rows) && RowFits(rows + [row], |rows|)
    ensures Sum(DataSpan, rows + [row]) == Sum(DataSpan, rows) + DataSpan(row)
    ensures Sum(ProtectedSpan, rows + [row]) == Sum(ProtectedSpan, rows) + ProtectedSpan(row)
    ensures Sum(SidecarSpan, rows + [row]) == Sum(SidecarSpan, rows) + SidecarSpan(row)
    ensures Sum(FileSpan, rows + [row]) == Sum(FileSpan, rows) + row.blocks + 1
    ensures Locators(rows + [row]) == Locators(rows) + (if row.Object? then [Locator(|rows|, row.blocks)] else [])
  {
    hide Sum, RowFits, Locators;
    FitsLast(rows, row);
    SumLast(DataSpan, rows, row);
    SumLast(ProtectedSpan, rows, row);
    SumLast(SidecarSpan, rows, row);
    SumLast(FileSpan, rows, row);
    LocatorsLast(rows, row);
  }

  lemma {:induction false} FittingIsWalked(vs: seq<Item>, w: Walk)
    requires Fitting(vs, w)
    ensures WalkAll(vs) == Some(w)
    decreases |vs|
  {
    hide Sum, RowFits, ReadRow, RowItem, RowsFit, Locators;
    NoRows();
    if |vs| > 0 {
      var n := |vs| - 1;
      var row := w.rows[n];
      var rows := w.rows[..n];
      assert w.rows == rows + [row];
      Extends(rows, row);
      var before := Walk(rows, n, Sum(DataSpan, rows), Sum(ProtectedSpan, rows), Sum(SidecarSpan, rows),
                         Sum(FileSpan, rows), Locators(rows));
      FittingIsWalked(vs[..n], before);
      ReadRowExactly(before, vs[n], row);
    } else {
      assert w.rows == [];
    }
  }

  // ----- what the locators and the spans are

  /** The locators name exactly the Object files, each with its blocks, in file order. */
  lemma {:induction false} LocatorsAre(rows: seq<Row>)
    ensures
      var ls := Locators(rows);
      && (forall l :: l in ls <==> l.file < |rows| && rows[l.file].Object? && l.blocks == rows[l.file].blocks)
      && (forall i, j :: 0 <= i < j < |ls| ==> ls[i].file < ls[j].file)
    decreases |rows|
  {
    if |rows| > 0 {
      var n := |rows| - 1;
      LocatorsAre(rows[..n]);
      var before := Locators(rows[..n]);
      assert forall l :: l in before ==> l.file < n;
      assert forall i :: 0 <= i < |before| ==> before[i] in before;
    }
  }

  function TotalBlocks(rows: seq<Row>): nat {
    if |rows| == 0 then 0 else TotalBlocks(rows[..|rows| - 1]) + rows[|rows| - 1].blocks
  }

  /** The spans are all the blocks and one filemark for each file. */
  lemma {:induction false} SpansAreBlocksAndMarks(rows: seq<Row>)
    ensures Sum(FileSpan, rows) == TotalBlocks(rows) + |rows|
    decreases |rows|
  {
    if |rows| > 0 {
      SpansAreBlocksAndMarks(rows[..|rows| - 1]);
    }
  }
}
