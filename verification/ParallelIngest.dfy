/** Parsing the chunks of a buffer with separate workers and merging their tables, against one pass over
    the lines. */
module ParallelIngest {
  import opened ColumnBuffer
  import opened ColumnMerge
  import opened Ingest
  import opened NdjsonSplit

  // ---- What a list of documents adds ---------------------------------------------------------------------------

  /** The document is rejected, if at all, before a field was appended that an abort leaves traces of. */
  ghost predicate Tidy(layout: Layout, items: seq<Item>) {
    && layout.Coerced(items)
    && var s := Scan(layout, items, map[]); s.Failed? ==> NoTrace(layout, s.row) && s.message != ""
  }

  ghost predicate NoTrace(layout: Layout, row: map<nat, Cell>) {
    forall c | c in row :: c < |layout.nullable| && Harmless(layout.nullable[c], row[c])
  }

  ghost predicate AllTidy(layout: Layout, docs: seq<seq<Item>>) {
    forall k | 0 <= k < |docs| :: Tidy(layout, docs[k])
  }

  /** The parser coerces values and words every failure. */
  ghost predicate Worded(layout: Layout, items: seq<Item>) {
    && layout.Coerced(items)
    && var s := Scan(layout, items, map[]); s.Failed? ==> s.message != ""
  }

  ghost predicate AllWorded(layout: Layout, docs: seq<seq<Item>>) {
    forall k | 0 <= k < |docs| :: Worded(layout, docs[k])
  }

  /** The rows of the accepted documents. */
  function RowsOf(layout: Layout, docs: seq<seq<Item>>): seq<map<nat, Cell>> {
    if docs == [] then []
    else
      match Scan(layout, docs[|docs| - 1], map[])
      case Complete(row) => RowsOf(layout, docs[..|docs| - 1]) + [row]
      case Failed(_, _) => RowsOf(layout, docs[..|docs| - 1])
  }

  /** The rejected ones, with their numbers counted from `first`. */
  function Failures(layout: Layout, docs: seq<seq<Item>>, first: nat): seq<Sample> {
    if docs == [] then []
    else
      match Scan(layout, docs[|docs| - 1], map[])
      case Complete(_) => Failures(layout, docs[..|docs| - 1], first)
      case Failed(_, message) => Failures(layout, docs[..|docs| - 1], first) + [Sample(message, first + |docs| - 1)]
  }

  lemma {:induction false} RowsConcat(layout: Layout, a: seq<seq<Item>>, b: seq<seq<Item>>)
    ensures RowsOf(layout, a + b) == RowsOf(layout, a) + RowsOf(layout, b)
    decreases |b|
  {
    if b == [] {
      assert a + b == a;
    } else {
      assert (a + b)[..|a + b| - 1] == a + b[..|b| - 1];
      RowsConcat(layout, a, b[..|b| - 1]);
    }
  }

  lemma {:induction false} FailuresConcat(layout: Layout, a: seq<seq<Item>>, b: seq<seq<Item>>, first: nat)
    ensures Failures(layout, a + b, first) == Failures(layout, a, first) + Failures(layout, b, first + |a|)
    decreases |b|
  {
    if b == [] {
      assert a + b == a;
    } else {
      assert (a + b)[..|a + b| - 1] == a + b[..|b| - 1];
      FailuresConcat(layout, a, b[..|b| - 1], first);
    }
  }

  /** The list with others behind it, cut at `max` entries in all. */
  function Clip<A>(max: nat, have: seq<A>, more: seq<A>): seq<A> {
    if |have| >= max then have
    else if |have| + |more| <= max then have + more
    else have + more[..max - |have|]
  }

  function LastMessage(before: string, failures: seq<Sample>): string {
    if failures == [] then before else failures[|failures| - 1].message
  }

  /** Column c of some rows; a row without it holds a null there. */
  function ColumnCells(rows: seq<map<nat, Cell>>, c: nat): (cells: seq<Cell>)
    ensures |cells| == |rows| && forall i | 0 <= i < |rows| :: cells[i] == if c in rows[i] then rows[i][c] else Null
  {
    seq(|rows|, i requires 0 <= i < |rows| => if c in rows[i] then rows[i][c] else Null)
  }

  /** The projected columns hold exactly these rows. */
  ghost predicate Holds(layout: Layout, t: Table, rows: seq<map<nat, Cell>>) {
    && layout.Ok() && Typed(layout, t) && t.size == |rows|
    && forall c | c in layout.projected :: Represents(t.columns[c], ColumnCells(rows, c))
  }

  /** The projected columns hold the values of these rows; their packed bits may be others. */
  ghost predicate Keeps(layout: Layout, t: Table, rows: seq<map<nat, Cell>>) {
    && layout.Ok() && Typed(layout, t) && t.size == |rows|
    && forall c | c in layout.projected :: Carries(t.columns[c], ColumnCells(rows, c))
  }

  lemma HoldsKeeps(layout: Layout, t: Table, rows: seq<map<nat, Cell>>)
    requires Holds(layout, t, rows)
    ensures Keeps(layout, t, rows)
  {
    hide Represents, Carries;
    forall c | c in layout.projected ensures Carries(t.columns[c], ColumnCells(rows, c)) {
      RepresentsIff(t.columns[c], ColumnCells(rows, c));
    }
  }

  /** The columns keep their types, and the unprojected ones everything. */
  ghost predicate SameShape(layout: Layout, t: Table, u: Table) {
    && |t.columns| == |u.columns|
    && (forall c: nat | c < |t.columns| :: t.columns[c].kind == u.columns[c].kind && t.columns[c].nullable == u.columns[c].nullable)
    && (forall c: nat | c < |t.columns| && c !in layout.projected :: t.columns[c] == u.columns[c])
  }

  /** The counters and messages after some more documents. */
  ghost predicate Accounted(layout: Layout, t: Table, u: Table, docs: nat, failures: seq<Sample>) {
    && u.nextRow == t.nextRow + docs
    && u.skipped == t.skipped + |failures|
    && u.samples == Clip(layout.maxSamples, t.samples, failures)
    && u.lastError == LastMessage(t.lastError, failures)
  }

  lemma AcceptHolds(layout: Layout, t: Table, rows: seq<map<nat, Cell>>, row: map<nat, Cell>)
    requires Holds(layout, t, rows) && RowFits(layout, row)
    ensures forall c | c in layout.projected ::
              Represents(Filled(layout, t.columns, row)[c], ColumnCells(rows + [row], c))
  {
    hide Represents, Append;
    forall c | c in layout.projected ensures Represents(Filled(layout, t.columns, row)[c], ColumnCells(rows + [row], c)) {
      var cell := if c in row then row[c] else Null;
      AppendRepresents(t.columns[c], ColumnCells(rows, c), cell);
      assert ColumnCells(rows + [row], c) == ColumnCells(rows, c) + [cell];
    }
  }

  lemma FilledShape(layout: Layout, t: Table, row: map<nat, Cell>)
    ensures SameShape(layout, t, t.(columns := Filled(layout, t.columns, row)))
  {
    hide PutBit, Room;
  }

  lemma RejectKeeps(layout: Layout, t: Table, row: map<nat, Cell>)
    requires Square(layout, t) && row.Keys <= layout.projected && RowFits(layout, row) && NoTrace(layout, row)
    ensures Undone(t.columns, row) == t.columns
  {
    hide Aborted, Harmless, Aligned, Fits;
    forall c | 0 <= c < |t.columns| && c in row ensures Aborted(t.columns[c], row[c]) == t.columns[c] {
      HarmlessAbort(t.columns[c], t.size, row[c]);
    }
  }

  lemma HoldsSquare(layout: Layout, t: Table, rows: seq<map<nat, Cell>>)
    requires Holds(layout, t, rows)
    ensures Square(layout, t)
  {
    hide Represents, Aligned;
    forall c | c in layout.projected ensures Aligned(t.columns[c], t.size) {
      RepresentsAligned(t.columns[c], ColumnCells(rows, c));
    }
  }

  lemma AddDocumentHolds(layout: Layout, t: Table, rows: seq<map<nat, Cell>>, items: seq<Item>)
    requires Holds(layout, t, rows) && Tidy(layout, items)
    ensures var s, u := Scan(layout, items, map[]), AddDocument(layout, t, items);
            && Holds(layout, u, if s.Complete? then rows + [s.row] else rows)
            && SameShape(layout, t, u)
  {
    hide Scan, Represents, Filled, Undone, ColumnCells;
    ScanFits(layout, items, map[]);
    var s := Scan(layout, items, map[]);
    if s.Complete? {
      AcceptHolds(layout, t, rows, s.row);
      FilledShape(layout, t, s.row);
    } else {
      HoldsSquare(layout, t, rows);
      RejectKeeps(layout, t, s.row);
    }
  }

  // ---- Whatever a rejected document has left behind -----------------------------------------------------------------

  lemma AcceptKeeps(layout: Layout, t: Table, rows: seq<map<nat, Cell>>, row: map<nat, Cell>)
    requires Keeps(layout, t, rows) && RowFits(layout, row)
    ensures Keeps(layout, t.(columns := Filled(layout, t.columns, row), size := t.size + 1), rows + [row])
  {
    FilledShape(layout, t, row);
    hide Carries, Append;
    forall c | c in layout.projected ensures Carries(Filled(layout, t.columns, row)[c], ColumnCells(rows + [row], c)) {
      var cell := if c in row then row[c] else Null;
      AppendCarries(t.columns[c], ColumnCells(rows, c), cell);
      assert ColumnCells(rows + [row], c) == ColumnCells(rows, c) + [cell];
    }
  }

  lemma RejectKeepsValues(layout: Layout, t: Table, rows: seq<map<nat, Cell>>, row: map<nat, Cell>)
    requires Keeps(layout, t, rows) && RowFits(layout, row) && row.Keys <= layout.projected
    ensures Keeps(layout, t.(columns := Undone(t.columns, row)), rows)
    ensures SameShape(layout, t, t.(columns := Undone(t.columns, row)))
  {
    hide Carries, PutBit, Room;
    forall c | c in layout.projected ensures Carries(Undone(t.columns, row)[c], ColumnCells(rows, c)) {
      if c in row { AbortCarries(t.columns[c], ColumnCells(rows, c), row[c]); }
    }
  }

  lemma AddDocumentKeeps(layout: Layout, t: Table, rows: seq<map<nat, Cell>>, items: seq<Item>)
    requires Keeps(layout, t, rows) && layout.Coerced(items)
    ensures var s, u := Scan(layout, items, map[]), AddDocument(layout, t, items);
            && Keeps(layout, u, if s.Complete? then rows + [s.row] else rows)
            && SameShape(layout, t, u)
  {
    hide Scan, Carries, Filled, Undone, ColumnCells, Layout.Coerced;
    ScanFits(layout, items, map[]);
    var s := Scan(layout, items, map[]);
    if s.Complete? {
      AcceptKeeps(layout, t, rows, s.row);
      FilledShape(layout, t, s.row);
    } else {
      RejectKeepsValues(layout, t, rows, s.row);
    }
  }

  /** Whatever documents are rejected: the columns hold the values of the accepted rows. */
  lemma {:induction false} AddDocumentsKeep(layout: Layout, t: Table, rows: seq<map<nat, Cell>>, docs: seq<seq<Item>>)
    requires Keeps(layout, t, rows) && AllWorded(layout, docs)
    ensures Keeps(layout, AddDocuments(layout, t, docs), rows + RowsOf(layout, docs))
    ensures SameShape(layout, t, AddDocuments(layout, t, docs))
  {
    hide Keeps, AddDocument, Scan, Layout.Coerced;
    if docs == [] {
      assert rows + [] == rows;
    } else {
      var init, last := docs[..|docs| - 1], docs[|docs| - 1];
      AddDocumentsKeep(layout, t, rows, init);
      assert Worded(layout, last);
      AddDocumentKeeps(layout, AddDocuments(layout, t, init), rows + RowsOf(layout, init), last);
      ShapeTransitive(layout, t, AddDocuments(layout, t, init), AddDocuments(layout, t, docs));
      var s := Scan(layout, last, map[]);
      if s.Complete? {
        assert rows + (RowsOf(layout, init) + [s.row]) == (rows + RowsOf(layout, init)) + [s.row];
      }
    }
  }

  lemma ShapeTransitive(layout: Layout, t: Table, u: Table, v: Table)
    requires SameShape(layout, t, u) && SameShape(layout, u, v)
    ensures SameShape(layout, t, v)
  {
  }

  lemma {:induction false} AddDocumentsHold(layout: Layout, t: Table, rows: seq<map<nat, Cell>>, docs: seq<seq<Item>>)
    requires Holds(layout, t, rows) && AllTidy(layout, docs)
    ensures Holds(layout, AddDocuments(layout, t, docs), rows + RowsOf(layout, docs))
    ensures SameShape(layout, t, AddDocuments(layout, t, docs))
  {
    hide Holds, AddDocument, Tidy, Scan;
    if docs == [] {
      assert rows + [] == rows;
    } else {
      var init, last := docs[..|docs| - 1], docs[|docs| - 1];
      AddDocumentsHold(layout, t, rows, init);
      AddDocumentHolds(layout, AddDocuments(layout, t, init), rows + RowsOf(layout, init), last);
      ShapeTransitive(layout, t, AddDocuments(layout, t, init), AddDocuments(layout, t, docs));
      var s := Scan(layout, last, map[]);
      if s.Complete? {
        assert rows + (RowsOf(layout, init) + [s.row]) == (rows + RowsOf(layout, init)) + [s.row];
      }
    }
  }

  lemma ClipNext<A>(max: nat, have: seq<A>, more: seq<A>, x: A)
    ensures Clip(max, have, more + [x]) == if |Clip(max, have, more)| < max then Clip(max, have, more) + [x] else Clip(max, have, more)
  {
    if |have| < max {
      if |have| + |more| < max {
        assert have + (more + [x]) == (have + more) + [x];
      } else {
        assert (more + [x])[..max - |have|] == more[..max - |have|];
      }
    }
  }

  lemma ClipNone<A>(max: nat, have: seq<A>)
    ensures Clip(max, have, []) == have
  {
    assert have + [] == have;
  }

  lemma {:induction false} AddDocumentsAccounted(layout: Layout, t: Table, docs: seq<seq<Item>>)
    ensures Accounted(layout, t, AddDocuments(layout, t, docs), |docs|, Failures(layout, docs, t.nextRow))
  {
    hide Scan, Filled, Undone, Clip;
    ClipNone(layout.maxSamples, t.samples);
    if docs != [] {
      var init, last := docs[..|docs| - 1], docs[|docs| - 1];
      AddDocumentsAccounted(layout, t, init);
      var s := Scan(layout, last, map[]);
      if s.Failed? {
        ClipNext(layout.maxSamples, t.samples, Failures(layout, init, t.nextRow), Sample(s.message, t.nextRow + |init|));
      }
    }
  }

  // ---- Merging the workers' tables --------------------------------------------------------------------------------

  /** A reset table of the same columns. */
  function Empty(t: Table): (e: Table)
    ensures |e.columns| == |t.columns|
  {
    Table(seq(|t.columns|, c requires 0 <= c < |t.columns| => Fresh(t.columns[c].kind, t.columns[c].nullable)), 0, 0, 0, [], "")
  }

  lemma EmptyHolds(layout: Layout, t: Table, rows: seq<map<nat, Cell>>)
    requires Keeps(layout, t, rows)
    ensures Holds(layout, Empty(t), [])
    ensures forall c: nat | c < |t.columns| ::
              Empty(t).columns[c].kind == t.columns[c].kind && Empty(t).columns[c].nullable == t.columns[c].nullable
  {
    hide Represents;
    forall c | c in layout.projected ensures Represents(Empty(t).columns[c], ColumnCells([], c)) {
      FreshRepresents(t.columns[c].kind, t.columns[c].nullable);
      assert ColumnCells([], c) == [];
    }
  }

  /** Each worker parsed its own documents from a reset table. */
  ghost predicate Parsed(layout: Layout, dst: Table, rows: seq<map<nat, Cell>>, workers: seq<Table>, batches: seq<seq<seq<Item>>>) {
    && Keeps(layout, dst, rows) && |workers| == |batches|
    && forall i | 0 <= i < |workers| :: AllWorded(layout, batches[i]) && workers[i] == AddDocuments(layout, Empty(dst), batches[i])
  }

  function RowParts(layout: Layout, batches: seq<seq<seq<Item>>>): (parts: seq<seq<map<nat, Cell>>>)
    ensures |parts| == |batches| && forall i | 0 <= i < |parts| :: parts[i] == RowsOf(layout, batches[i])
  {
    seq(|batches|, i requires 0 <= i < |batches| => RowsOf(layout, batches[i]))
  }

  lemma {:induction false} RowsFlatten(layout: Layout, batches: seq<seq<seq<Item>>>)
    ensures Flatten(RowParts(layout, batches)) == RowsOf(layout, Flatten(batches))
  {
    if batches != [] {
      var last := |batches| - 1;
      RowsFlatten(layout, batches[..last]);
      RowsConcat(layout, Flatten(batches[..last]), batches[last]);
      assert RowParts(layout, batches)[..last] == RowParts(layout, batches[..last]);
    }
  }

  lemma WorkerKeeps(layout: Layout, dst: Table, rows: seq<map<nat, Cell>>, workers: seq<Table>, batches: seq<seq<seq<Item>>>, i: nat)
    requires Parsed(layout, dst, rows, workers, batches) && i < |workers|
    ensures |workers| == |batches| && Keeps(layout, workers[i], RowParts(layout, batches)[i])
    ensures |workers[i].columns| == |dst.columns|
    ensures forall c: nat | c < |dst.columns| ::
              workers[i].columns[c].kind == dst.columns[c].kind && workers[i].columns[c].nullable == dst.columns[c].nullable
    ensures AllTidy(layout, batches[i]) ==> Holds(layout, workers[i], RowParts(layout, batches)[i])
  {
    hide Holds, Keeps, RowsOf, AddDocuments, AllTidy;
    EmptyHolds(layout, dst, rows);
    HoldsKeeps(layout, Empty(dst), []);
    AddDocumentsKeep(layout, Empty(dst), [], batches[i]);
    if AllTidy(layout, batches[i]) { AddDocumentsHold(layout, Empty(dst), [], batches[i]); }
    assert [] + RowsOf(layout, batches[i]) == RowsOf(layout, batches[i]);
  }

  /** The rows each worker's rows go behind. */
  method RowBases(dst: Table, workers: seq<Table>, ghost rows: seq<map<nat, Cell>>, ghost parts: seq<seq<map<nat, Cell>>>)
    returns (bases: seq<nat>, total: nat)
    requires dst.size == |rows| && |workers| == |parts| && forall i | 0 <= i < |workers| :: workers[i].size == |parts[i]|
    ensures |bases| == |workers| && forall i | 0 <= i < |bases| :: bases[i] == |rows| + |Flatten(parts[..i])|
    ensures total == |rows| + |Flatten(parts)|
  {
    hide *;
    FirstAndLast(rows, parts);
    bases, total := [], dst.size;
    var i := 0;
    while i < |workers|
      invariant 0 <= i <= |workers| && |bases| == i && total == |rows + Flatten(parts[..i])|
      invariant forall k | 0 <= k < i :: bases[k] == |rows| + |Flatten(parts[..k])|
    {
      NextPart(rows, parts, i);
      bases := bases + [total];
      total := total + workers[i].size;
      i := i + 1;
    }
  }

  function ColumnsIn(workers: seq<Table>, c: nat): (columns: seq<Buffer>)
    requires forall i | 0 <= i < |workers| :: c < |workers[i].columns|
    ensures |columns| == |workers| && forall i | 0 <= i < |columns| :: columns[i] == workers[i].columns[c]
  {
    seq(|workers|, i requires 0 <= i < |workers| => workers[i].columns[c])
  }

  lemma CellsRowByRow(c: nat)
    ensures RowByRow((rows: seq<map<nat, Cell>>) => ColumnCells(rows, c))
  {
    var f := (rows: seq<map<nat, Cell>>) => ColumnCells(rows, c);
    forall a: seq<map<nat, Cell>>, b: seq<map<nat, Cell>> ensures f(a + b) == f(a) + f(b) {}
  }

  /** Each worker's columns carry its rows' cells. */
  ghost predicate AllKeep(layout: Layout, dst: Table, workers: seq<Table>, parts: seq<seq<map<nat, Cell>>>) {
    && |workers| == |parts|
    && (forall i | 0 <= i < |workers| :: Keeps(layout, workers[i], parts[i]) && |workers[i].columns| == |dst.columns|)
    && (forall i, c: nat | 0 <= i < |workers| && c < |dst.columns| ::
          workers[i].columns[c].kind == dst.columns[c].kind && workers[i].columns[c].nullable == dst.columns[c].nullable)
  }

  lemma ColumnMergeable(layout: Layout, dst: Table, rows: seq<map<nat, Cell>>, workers: seq<Table>,
                        parts: seq<seq<map<nat, Cell>>>, bases: seq<nat>, c: nat)
    requires Keeps(layout, dst, rows) && c in layout.projected && |workers| == |bases| && AllKeep(layout, dst, workers, parts)
    requires forall i | 0 <= i < |workers| :: bases[i] == |rows| + |Flatten(parts[..i])|
    ensures forall i | 0 <= i < |workers| :: c < |workers[i].columns|
    ensures var f := (rs: seq<map<nat, Cell>>) => ColumnCells(rs, c);
            && Mergeable(dst.columns[c], ColumnsIn(workers, c), bases, f(rows), Each(f, parts))
            && f(rows) + Flatten(Each(f, parts)) == ColumnCells(rows + Flatten(parts), c)
  {
    hide Carries, RowByRow, Flatten;
    var f := (rs: seq<map<nat, Cell>>) => ColumnCells(rs, c);
    CellsRowByRow(c);
    EachFlattens(f, parts);
    assert f(rows) + f(Flatten(parts)) == f(rows + Flatten(parts));
    forall i | 0 <= i < |workers|
      ensures Carries(ColumnsIn(workers, c)[i], Each(f, parts)[i])
      ensures bases[i] == |f(rows)| + |Flatten(Each(f, parts)[..i])|
    {
      EachPrefix(f, parts, i);
    }
  }

  /** Every projected column is joined from the table's and the workers', the others are the table's. */
  ghost predicate AllJoined(layout: Layout, dst: Table, workers: seq<Table>, columns: seq<Buffer>, rows: seq<map<nat, Cell>>) {
    && |columns| == |dst.columns| && (forall i | 0 <= i < |workers| :: |workers[i].columns| == |dst.columns|)
    && forall c: nat | c < |columns| :: ColumnJoined(layout, dst, workers, columns[c], rows, c)
  }

  ghost predicate ColumnJoined(layout: Layout, dst: Table, workers: seq<Table>, column: Buffer, rows: seq<map<nat, Cell>>, c: nat)
    requires c < |dst.columns| && forall i | 0 <= i < |workers| :: |workers[i].columns| == |dst.columns|
  {
    if c in layout.projected then EndToEnd(column, dst.columns[c], ColumnsIn(workers, c), ColumnCells(rows, c))
    else column == dst.columns[c]
  }

  lemma KeepWidths(layout: Layout, dst: Table, workers: seq<Table>, parts: seq<seq<map<nat, Cell>>>)
    requires AllKeep(layout, dst, workers, parts)
    ensures forall i | 0 <= i < |workers| :: |workers[i].columns| == |dst.columns|
  {
  }

  method MergeColumns(layout: Layout, dst: Table, workers: seq<Table>, bases: seq<nat>,
                      ghost rows: seq<map<nat, Cell>>, ghost parts: seq<seq<map<nat, Cell>>>) returns (columns: seq<Buffer>)
    requires Keeps(layout, dst, rows) && AllKeep(layout, dst, workers, parts) && |workers| == |bases|
    requires forall i | 0 <= i < |workers| :: bases[i] == |rows| + |Flatten(parts[..i])|
    ensures AllJoined(layout, dst, workers, columns, rows + Flatten(parts))
  {
    hide *;
    KeepWidths(layout, dst, workers, parts);
    columns := [];
    while |columns| < |dst.columns|
      invariant |columns| <= |dst.columns|
      invariant forall c: nat | c < |columns| :: ColumnJoined(layout, dst, workers, columns[c], rows + Flatten(parts), c)
    {
      var c := |columns|;
      var column := dst.columns[c];
      if c in layout.projected {
        ColumnMergeable(layout, dst, rows, workers, parts, bases, c);
        ghost var f := (rs: seq<map<nat, Cell>>) => ColumnCells(rs, c);
        column := MergeColumn(dst.columns[c], ColumnsIn(workers, c), bases, f(rows), Each(f, parts));
      }
      IsJoined(layout, dst, workers, column, rows + Flatten(parts), c);
      columns := columns + [column];
    }
    AreJoined(layout, dst, workers, columns, rows + Flatten(parts));
  }

  lemma IsJoined(layout: Layout, dst: Table, workers: seq<Table>, column: Buffer, rows: seq<map<nat, Cell>>, c: nat)
    requires c < |dst.columns| && forall i | 0 <= i < |workers| :: |workers[i].columns| == |dst.columns|
    requires if c in layout.projected then EndToEnd(column, dst.columns[c], ColumnsIn(workers, c), ColumnCells(rows, c))
             else column == dst.columns[c]
    ensures ColumnJoined(layout, dst, workers, column, rows, c)
  {
  }

  lemma AreJoined(layout: Layout, dst: Table, workers: seq<Table>, columns: seq<Buffer>, rows: seq<map<nat, Cell>>)
    requires |columns| == |dst.columns| && forall i | 0 <= i < |workers| :: |workers[i].columns| == |dst.columns|
    requires forall c: nat | c < |columns| :: ColumnJoined(layout, dst, workers, columns[c], rows, c)
    ensures AllJoined(layout, dst, workers, columns, rows)
  {
    hide ColumnJoined;
  }

  // ---- Counters, error samples and messages -------------------------------------------------------------------------

  /** The samples with their row numbers moved behind the rows before. */
  function Shift(samples: seq<Sample>, base: nat): (out: seq<Sample>)
    ensures |out| == |samples| && forall k | 0 <= k < |out| :: out[k] == Sample(samples[k].message, samples[k].row + base)
  {
    seq(|samples|, k requires 0 <= k < |samples| => Sample(samples[k].message, samples[k].row + base))
  }

  lemma {:induction false} ShiftFailures(layout: Layout, docs: seq<seq<Item>>, base: nat)
    ensures Shift(Failures(layout, docs, 0), base) == Failures(layout, docs, base)
  {
    if docs != [] { ShiftFailures(layout, docs[..|docs| - 1], base); }
  }

  /** A worker keeps only its own first samples; the merge still keeps the first of all. */
  lemma ClipClip<A>(max: nat, have: seq<A>, more: seq<A>)
    ensures Clip(max, have, Clip(max, [], more)) == Clip(max, have, more)
  {
    assert [] + more == more;
    if 0 < max < |more| {
      assert [] + more[..max] == more[..max];
      if |have| < max { assert more[..max][..max - |have|] == more[..max - |have|]; }
    }
  }

  lemma ClipTwice<A>(max: nat, have: seq<A>, a: seq<A>, b: seq<A>)
    requires |have| <= max
    ensures Clip(max, Clip(max, have, a), b) == Clip(max, have, a + b)
  {
    var room := max - |have|;
    if room <= |a| {
      assert (a + b)[..room] == a[..room];
      if room == |a| && b == [] { assert a + b == a; }
      if room == |a| { assert a[..room] == a; }
    } else if |a| + |b| <= room {
      assert (have + a) + b == have + (a + b);
    } else {
      assert (a + b)[..room] == a + b[..room - |a|];
      assert (have + a) + b[..room - |a|] == have + (a + b[..room - |a|]);
    }
  }

  lemma ShiftClip(max: nat, samples: seq<Sample>, base: nat)
    ensures Shift(Clip(max, [], samples), base) == Clip(max, [], Shift(samples, base))
  {
    assert [] + samples == samples && [] + Shift(samples, base) == Shift(samples, base);
    if 0 < max < |samples| {
      assert [] + samples[..max] == samples[..max] && [] + Shift(samples, base)[..max] == Shift(samples, base)[..max];
      assert Shift(samples[..max], base) == Shift(samples, base)[..max];
    }
  }

  method ShiftSamples(samples: seq<Sample>, base: nat) returns (out: seq<Sample>)
    ensures out == Shift(samples, base)
  {
    out := [];
    while |out| < |samples|
      invariant |out| <= |samples|
      invariant forall k | 0 <= k < |out| :: out[k] == Sample(samples[k].message, samples[k].row + base)
    {
      out := out + [Sample(samples[|out|].message, samples[|out|].row + base)];
    }
  }

  method AppendSamples(max: nat, have: seq<Sample>, more: seq<Sample>) returns (out: seq<Sample>)
    ensures out == Clip(max, have, more)
  {
    out := have;
    var i := 0;
    while i < |more|
      invariant 0 <= i <= |more|
      invariant out == Clip(max, have, more[..i])
    {
      ClipNext(max, have, more[..i], more[i]);
      assert more[..i + 1] == more[..i] + [more[i]];
      if max <= 0 || |out| >= max {
        ClipFull(max, have, more, i);
        return;
      }
      out := out + [more[i]];
      i := i + 1;
    }
    assert more[..i] == more;
  }

  lemma ClipFull(max: nat, have: seq<Sample>, more: seq<Sample>, i: nat)
    requires i <= |more| && |Clip(max, have, more[..i])| >= max
    ensures Clip(max, have, more[..i]) == Clip(max, have, more)
  {
    if |have| < max { assert more[..i][..max - |have|] == more[..max - |have|]; }
  }

  /** One worker's counters behind those of the workers before it. */
  lemma AccountedMore(layout: Layout, t: Table, u: Table, w: Table, v: Table, docs: seq<seq<Item>>, more: seq<seq<Item>>)
    requires |t.samples| <= layout.maxSamples
    requires Accounted(layout, t, u, |docs|, Failures(layout, docs, t.nextRow))
    requires w == AddDocuments(layout, Empty(t), more) && AllWorded(layout, more)
    requires v.nextRow == u.nextRow + w.nextRow && v.skipped == u.skipped + w.skipped
    requires v.samples == Clip(layout.maxSamples, u.samples, Shift(w.samples, u.nextRow))
    requires v.lastError == if w.lastError != "" then w.lastError else u.lastError
    ensures Accounted(layout, t, v, |docs + more|, Failures(layout, docs + more, t.nextRow))
  {
    hide AddDocuments, Failures, Clip, AllWorded;
    var f, g := Failures(layout, docs, t.nextRow), Failures(layout, more, t.nextRow + |docs|);
    AddDocumentsAccounted(layout, Empty(t), more);
    FailuresConcat(layout, docs, more, t.nextRow);
    ShiftFailures(layout, more, u.nextRow);
    ShiftClip(layout.maxSamples, Failures(layout, more, 0), u.nextRow);
    ClipClip(layout.maxSamples, u.samples, g);
    ClipTwice(layout.maxSamples, t.samples, f, g);
    MessagesSay(layout, more, 0);
    assert |Shift(Failures(layout, more, 0), u.nextRow)| == |g|;
    if g != [] { assert g[|g| - 1].message == Failures(layout, more, 0)[|g| - 1].message; }
  }

  lemma {:induction false} MessagesSay(layout: Layout, docs: seq<seq<Item>>, first: nat)
    requires AllWorded(layout, docs)
    ensures forall k | 0 <= k < |Failures(layout, docs, first)| :: Failures(layout, docs, first)[k].message != ""
  {
    hide Scan;
    if docs != [] {
      MessagesSay(layout, docs[..|docs| - 1], first);
      assert Worded(layout, docs[|docs| - 1]);
    }
  }

  lemma ParsedAt(layout: Layout, dst: Table, rows: seq<map<nat, Cell>>, workers: seq<Table>, batches: seq<seq<seq<Item>>>, i: nat)
    requires Parsed(layout, dst, rows, workers, batches) && i < |workers|
    ensures |workers| == |batches| && AllWorded(layout, batches[i]) && workers[i] == AddDocuments(layout, Empty(dst), batches[i])
  {
    hide Keeps, AddDocuments;
  }

  lemma NothingAccounted(layout: Layout, t: Table)
    ensures Accounted(layout, t, t, 0, Failures(layout, [], t.nextRow))
  {
  }

  /** The loops over the workers that add up counters and collect the first samples. */
  method MergeCounters(layout: Layout, dst: Table, workers: seq<Table>, ghost rows: seq<map<nat, Cell>>, ghost batches: seq<seq<seq<Item>>>)
    returns (t: Table)
    requires Parsed(layout, dst, rows, workers, batches) && |dst.samples| <= layout.maxSamples && |workers| == |batches|
    ensures Accounted(layout, dst, t, |Flatten(batches)|, Failures(layout, Flatten(batches), dst.nextRow))
    ensures t.columns == dst.columns && t.size == dst.size
  {
    hide *;
    ghost var none: seq<seq<Item>> := [];
    FirstAndLast(none, batches);
    t := dst;
    NothingAccounted(layout, dst);
    var i := 0;
    while i < |workers|
      invariant 0 <= i <= |workers| && t.columns == dst.columns && t.size == dst.size
      invariant Accounted(layout, dst, t, |none + Flatten(batches[..i])|, Failures(layout, none + Flatten(batches[..i]), dst.nextRow))
    {
      NextPart(none, batches, i);
      ParsedAt(layout, dst, rows, workers, batches, i);
      var w, before := workers[i], t;
      var shifted := ShiftSamples(w.samples, t.nextRow);
      var samples := AppendSamples(layout.maxSamples, t.samples, shifted);
      t := t.(nextRow := t.nextRow + w.nextRow, skipped := t.skipped + w.skipped, samples := samples,
              lastError := if w.lastError != "" then w.lastError else t.lastError);
      AccountedMore(layout, dst, before, w, t, none + Flatten(batches[..i]), batches[i]);
      i := i + 1;
    }
    assert none + Flatten(batches) == Flatten(batches);
  }

  // ---- The merged table is the sequential one ---------------------------------------------------------------------

  /** Rows, shape and counters determine a table. */
  lemma TablesEqual(layout: Layout, t: Table, u: Table, v: Table, rows: seq<map<nat, Cell>>, docs: nat, failures: seq<Sample>)
    requires Holds(layout, u, rows) && Holds(layout, v, rows)
    requires SameShape(layout, t, u) && SameShape(layout, t, v)
    requires Accounted(layout, t, u, docs, failures) && Accounted(layout, t, v, docs, failures)
    ensures u == v
  {
    hide Represents;
    forall c: nat | c < |u.columns| ensures u.columns[c] == v.columns[c] {
      if c in layout.projected { RepresentsOne(u.columns[c], v.columns[c], ColumnCells(rows, c)); }
    }
    assert u.columns == v.columns;
  }

  /** The table of the workers' rows behind those there were: values, bits, size and counters. */
  ghost predicate Merged(layout: Layout, dst: Table, workers: seq<Table>, t: Table, rows: seq<map<nat, Cell>>, docs: nat, failures: seq<Sample>) {
    && AllJoined(layout, dst, workers, t.columns, rows) && t.size == |rows|
    && Accounted(layout, dst, t, docs, failures)
  }

  /** The merged table holds the values of all rows. */
  lemma MergedKeeps(layout: Layout, dst: Table, workers: seq<Table>, t: Table, before: seq<map<nat, Cell>>, rows: seq<map<nat, Cell>>,
                    docs: nat, failures: seq<Sample>)
    requires Merged(layout, dst, workers, t, rows, docs, failures) && Keeps(layout, dst, before)
    ensures Keeps(layout, t, rows) && SameShape(layout, dst, t)
  {
    hide Carries, Accounted;
    forall c: nat | c < |t.columns|
      ensures t.columns[c].kind == dst.columns[c].kind && t.columns[c].nullable == dst.columns[c].nullable
      ensures if c in layout.projected then Carries(t.columns[c], ColumnCells(rows, c)) else t.columns[c] == dst.columns[c]
    {
      assert ColumnJoined(layout, dst, workers, t.columns[c], rows, c);
    }
  }

  /** Workers that hold exactly their rows are merged to exactly all rows. */
  lemma MergedHolds(layout: Layout, dst: Table, workers: seq<Table>, t: Table, rows: seq<map<nat, Cell>>, parts: seq<seq<map<nat, Cell>>>,
                    docs: nat, failures: seq<Sample>)
    requires Merged(layout, dst, workers, t, rows + Flatten(parts), docs, failures) && Holds(layout, dst, rows)
    requires AllKeep(layout, dst, workers, parts) && forall i | 0 <= i < |workers| :: Holds(layout, workers[i], parts[i])
    ensures Holds(layout, t, rows + Flatten(parts))
  {
    hide Represents, Carries, Accounted, Flatten, EndToEnd;
    HoldsKeeps(layout, dst, rows);
    MergedKeeps(layout, dst, workers, t, rows, rows + Flatten(parts), docs, failures);
    forall c | c in layout.projected ensures Represents(t.columns[c], ColumnCells(rows + Flatten(parts), c)) {
      assert ColumnJoined(layout, dst, workers, t.columns[c], rows + Flatten(parts), c);
      ColumnHolds(layout, dst, workers, t.columns[c], rows, parts, c);
    }
  }

  lemma ColumnHolds(layout: Layout, dst: Table, workers: seq<Table>, column: Buffer, rows: seq<map<nat, Cell>>, parts: seq<seq<map<nat, Cell>>>, c: nat)
    requires Holds(layout, dst, rows) && AllKeep(layout, dst, workers, parts) && c in layout.projected
    requires forall i | 0 <= i < |workers| :: Holds(layout, workers[i], parts[i])
    requires EndToEnd(column, dst.columns[c], ColumnsIn(workers, c), ColumnCells(rows + Flatten(parts), c))
    ensures Represents(column, ColumnCells(rows + Flatten(parts), c))
  {
    hide Represents, Carries, Flatten, EndToEnd, RowByRow, Keeps;
    var f := (rs: seq<map<nat, Cell>>) => ColumnCells(rs, c);
    CellsRowByRow(c);
    EachFlattens(f, parts);
    assert f(rows) + f(Flatten(parts)) == f(rows + Flatten(parts));
    JoinedRepresents(column, dst.columns[c], ColumnsIn(workers, c), f(rows), Each(f, parts));
  }

  lemma AllWorkersKeep(layout: Layout, dst: Table, rows: seq<map<nat, Cell>>, workers: seq<Table>, batches: seq<seq<seq<Item>>>)
    requires Parsed(layout, dst, rows, workers, batches)
    ensures AllKeep(layout, dst, workers, RowParts(layout, batches))
    ensures forall i | 0 <= i < |workers| :: workers[i].size == |RowParts(layout, batches)[i]|
  {
    hide Parsed, Carries, RowsOf;
    var parts := RowParts(layout, batches);
    ParsedSizes(layout, dst, rows, workers, batches);
    forall i | 0 <= i < |workers|
      ensures Keeps(layout, workers[i], parts[i]) && |workers[i].columns| == |dst.columns|
      ensures forall c: nat | c < |dst.columns| ::
                workers[i].columns[c].kind == dst.columns[c].kind && workers[i].columns[c].nullable == dst.columns[c].nullable
    {
      WorkerKeeps(layout, dst, rows, workers, batches, i);
    }
  }

  lemma ParsedSizes(layout: Layout, dst: Table, rows: seq<map<nat, Cell>>, workers: seq<Table>, batches: seq<seq<seq<Item>>>)
    requires Parsed(layout, dst, rows, workers, batches)
    ensures |workers| == |batches| && Keeps(layout, dst, rows)
  {
  }

  /** `merge_workers_parallel`: for all documents, the values and counters of one pass over them, with the bits that
      each worker shows; and where rejected documents leave no trace, the table of one pass. */
  method MergeWorkers(layout: Layout, dst: Table, workers: seq<Table>, ghost rows: seq<map<nat, Cell>>, ghost batches: seq<seq<seq<Item>>>)
    returns (t: Table)
    requires Parsed(layout, dst, rows, workers, batches) && |dst.samples| <= layout.maxSamples && |workers| == |batches|
    ensures var docs := Flatten(batches);
            Merged(layout, dst, workers, t, rows + RowsOf(layout, docs), |docs|, Failures(layout, docs, dst.nextRow))
    ensures AllTidy(layout, Flatten(batches)) && Holds(layout, dst, rows) ==> t == AddDocuments(layout, dst, Flatten(batches))
  {
    hide *;
    ghost var parts := RowParts(layout, batches);
    AllWorkersKeep(layout, dst, rows, workers, batches);
    ParsedSizes(layout, dst, rows, workers, batches);
    SizeOf(layout, dst, rows);
    var bases, total := RowBases(dst, workers, rows, parts);
    var columns := MergeColumns(layout, dst, workers, bases, rows, parts);
    var counted := MergeCounters(layout, dst, workers, rows, batches);
    t := counted.(columns := columns, size := total);
    RowsFlatten(layout, batches);
    ghost var failures := Failures(layout, Flatten(batches), dst.nextRow);
    AccountedColumns(layout, dst, counted, t, |Flatten(batches)|, failures);
    IsMerged(layout, dst, workers, t, rows + Flatten(parts), |Flatten(batches)|, failures);
    if AllTidy(layout, Flatten(batches)) && Holds(layout, dst, rows) {
      TidyMerge(layout, dst, workers, t, rows, batches);
    }
  }

  lemma IsMerged(layout: Layout, dst: Table, workers: seq<Table>, t: Table, rows: seq<map<nat, Cell>>, docs: nat, failures: seq<Sample>)
    requires AllJoined(layout, dst, workers, t.columns, rows) && t.size == |rows| && Accounted(layout, dst, t, docs, failures)
    ensures Merged(layout, dst, workers, t, rows, docs, failures)
  {
    hide AllJoined, Accounted;
  }

  lemma {:induction false} TidyParts(layout: Layout, batches: seq<seq<seq<Item>>>)
    requires AllTidy(layout, Flatten(batches))
    ensures forall i | 0 <= i < |batches| :: AllTidy(layout, batches[i])
  {
    hide Tidy;
    if batches != [] {
      var last := |batches| - 1;
      var front := Flatten(batches[..last]);
      assert Flatten(batches) == front + batches[last];
      forall k | 0 <= k < |front| ensures Tidy(layout, front[k]) { assert Flatten(batches)[k] == front[k]; }
      forall k | 0 <= k < |batches[last]| ensures Tidy(layout, batches[last][k]) { assert Flatten(batches)[|front| + k] == batches[last][k]; }
      TidyParts(layout, batches[..last]);
    }
  }

  /** Without traces the merged table is the one of a single pass. */
  lemma TidyMerge(layout: Layout, dst: Table, workers: seq<Table>, t: Table, rows: seq<map<nat, Cell>>, batches: seq<seq<seq<Item>>>)
    requires Parsed(layout, dst, rows, workers, batches) && AllTidy(layout, Flatten(batches)) && Holds(layout, dst, rows)
    requires Merged(layout, dst, workers, t, rows + Flatten(RowParts(layout, batches)), |Flatten(batches)|, Failures(layout, Flatten(batches), dst.nextRow))
    ensures t == AddDocuments(layout, dst, Flatten(batches))
  {
    hide *;
    var parts := RowParts(layout, batches);
    var docs := Flatten(batches);
    var failures := Failures(layout, docs, dst.nextRow);
    TidyParts(layout, batches);
    ParsedSizes(layout, dst, rows, workers, batches);
    AllWorkersKeep(layout, dst, rows, workers, batches);
    forall i | 0 <= i < |workers| ensures Holds(layout, workers[i], parts[i]) { WorkerKeeps(layout, dst, rows, workers, batches, i); }
    MergedHolds(layout, dst, workers, t, rows, parts, |docs|, failures);
    MergedKeeps(layout, dst, workers, t, rows, rows + Flatten(parts), |docs|, failures);
    MergedCounts(layout, dst, workers, t, rows + Flatten(parts), |docs|, failures);
    RowsFlatten(layout, batches);
    AddDocumentsHold(layout, dst, rows, docs);
    AddDocumentsAccounted(layout, dst, docs);
    TablesEqual(layout, dst, t, AddDocuments(layout, dst, docs), rows + Flatten(parts), |docs|, failures);
  }

  lemma MergedCounts(layout: Layout, dst: Table, workers: seq<Table>, t: Table, rows: seq<map<nat, Cell>>, docs: nat, failures: seq<Sample>)
    requires Merged(layout, dst, workers, t, rows, docs, failures)
    ensures Accounted(layout, dst, t, docs, failures)
  {
    hide AllJoined, Accounted;
  }

  lemma SizeOf(layout: Layout, t: Table, rows: seq<map<nat, Cell>>)
    requires Keeps(layout, t, rows)
    ensures t.size == |rows|
  {
    hide Carries;
  }

  lemma AccountedColumns(layout: Layout, t: Table, u: Table, v: Table, docs: nat, failures: seq<Sample>)
    requires Accounted(layout, t, u, docs, failures) && v == u.(columns := v.columns, size := v.size)
    ensures Accounted(layout, t, v, docs, failures)
  {
  }

  // ---- The whole buffer -------------------------------------------------------------------------------------------

  /** What the parser reads in each record. */
  function Read(read: string -> seq<Item>, records: seq<string>): (docs: seq<seq<Item>>)
    ensures |docs| == |records| && forall k | 0 <= k < |docs| :: docs[k] == read(records[k])
  {
    seq(|records|, k requires 0 <= k < |records| => read(records[k]))
  }

  function ChunkDocs(read: string -> seq<Item>, text: string, chunks: seq<Chunk>): (batches: seq<seq<seq<Item>>>)
    requires forall k | 0 <= k < |chunks| :: chunks[k].start <= chunks[k].end <= |text|
    ensures |batches| == |chunks|
    ensures forall k | 0 <= k < |chunks| :: batches[k] == Read(read, Records(text, chunks[k].start, chunks[k].end))
  {
    seq(|chunks|, k requires 0 <= k < |chunks| => Read(read, Records(text, chunks[k].start, chunks[k].end)))
  }

  lemma {:induction false} ChunkDocsFlatten(read: string -> seq<Item>, text: string, chunks: seq<Chunk>)
    requires forall k | 0 <= k < |chunks| :: chunks[k].start <= chunks[k].end <= |text|
    ensures Flatten(ChunkDocs(read, text, chunks)) == Read(read, ChunkRecords(text, chunks))
    decreases |chunks|
  {
    hide Records;
    if chunks != [] {
      var rest, first := chunks[1..], Records(text, chunks[0].start, chunks[0].end);
      ChunkDocsFlatten(read, text, rest);
      var batches := ChunkDocs(read, text, chunks);
      FlattenFirst(batches);
      assert batches[1..] == ChunkDocs(read, text, rest);
      ReadConcat(read, first, ChunkRecords(text, rest));
    }
  }

  lemma ReadConcat(read: string -> seq<Item>, a: seq<string>, b: seq<string>)
    ensures Read(read, a + b) == Read(read, a) + Read(read, b)
  {
  }

  lemma Associate<A>(a: seq<A>, b: seq<A>, c: seq<A>)
    ensures a + (b + c) == (a + b) + c
  {
  }

  lemma {:induction false} FlattenFirst<A>(parts: seq<seq<A>>)
    requires parts != []
    ensures Flatten(parts) == parts[0] + Flatten(parts[1..])
  {
    if |parts| == 1 {
      assert parts[..0] == [] && parts[1..] == [];
    } else {
      var last, rest := |parts| - 1, parts[1..];
      FlattenFirst(parts[..last]);
      assert parts[..last][1..] == rest[..last - 1] && rest[last - 1] == parts[last];
      var middle := Flatten(rest[..last - 1]);
      assert Flatten(rest) == middle + parts[last];
      Associate(parts[0], middle, parts[last]);
    }
  }

  lemma ReadWorded(layout: Layout, read: string -> seq<Item>, records: seq<string>)
    requires forall r: string :: Worded(layout, read(r))
    ensures AllWorded(layout, Read(read, records))
  {
    hide Worded;
  }

  /** `parse_ndjson_view`: the fast reader appends to the table; where it stumbles, the table is reset
      and the buffer read line by line. */
  function ParseView(layout: Layout, t: Table, docs: seq<seq<Item>>, stumbles: bool): Table {
    AddDocuments(layout, if stumbles then Empty(t) else t, docs)
  }

  lemma ViewRestarts(layout: Layout, t: Table, docs: seq<seq<Item>>, stumbles: bool)
    ensures ParseView(layout, t, docs, stumbles) == AddDocuments(layout, if stumbles then Empty(t) else t, docs)
  {
  }

  /** A worker starts from a reset table, so the restart changes nothing. */
  lemma WorkerRestarts(layout: Layout, t: Table, docs: seq<seq<Item>>, stumbles: bool)
    ensures ParseView(layout, Empty(t), docs, stumbles) == AddDocuments(layout, Empty(t), docs)
  {
    hide AddDocuments;
    assert Empty(Empty(t)).columns == Empty(t).columns;
  }

  /** Each chunk's own table. */
  function WorkersOf(layout: Layout, dst: Table, read: string -> seq<Item>, text: string, chunks: seq<Chunk>): (workers: seq<Table>)
    requires forall k | 0 <= k < |chunks| :: chunks[k].start <= chunks[k].end <= |text|
    ensures |workers| == |chunks|
    ensures forall k | 0 <= k < |chunks| ::
              workers[k] == AddDocuments(layout, Empty(dst), Read(read, Records(text, chunks[k].start, chunks[k].end)))
  {
    seq(|chunks|, k requires 0 <= k < |chunks| => AddDocuments(layout, Empty(dst), Read(read, Records(text, chunks[k].start, chunks[k].end))))
  }

  /** Splitting the buffer, parsing every chunk in a worker of its own and merging.  For every buffer and number of
      threads the table has the values and counters of one pass over the lines of the whole buffer and the bits that
      the chunks' own tables show; where rejected lines leave no trace it is the table of one pass.  A buffer that is
      not cut is parsed in place, where a stumble first drops what the table held. */
  method ParseParallel(layout: Layout, dst: Table, text: string, threads: int, read: string -> seq<Item>,
                       stumbles: Chunk -> bool, ghost rows: seq<map<nat, Cell>>) returns (t: Table, chunks: seq<Chunk>)
    requires Keeps(layout, dst, rows) && |dst.samples| <= layout.maxSamples && forall r: string :: Worded(layout, read(r))
    ensures |chunks| > 1 ==> Tiles(text, chunks) && forall k | 0 <= k < |chunks| :: chunks[k].start <= chunks[k].end <= |text|
    ensures var docs := Read(read, Records(text, 0, |text|));
            && (|chunks| <= 1 ==> t == AddDocuments(layout, if stumbles(Chunk(0, |text|)) then Empty(dst) else dst, docs))
            && (|chunks| > 1 ==>
                  && Merged(layout, dst, WorkersOf(layout, dst, read, text, chunks), t, rows + RowsOf(layout, docs),
                            |docs|, Failures(layout, docs, dst.nextRow))
                  && (AllTidy(layout, docs) && Holds(layout, dst, rows) ==> t == AddDocuments(layout, dst, docs)))
    ensures threads <= 1 || |text| < PARALLEL_THRESHOLD ==> |chunks| <= 1
  {
    hide *;
    chunks := SplitNdjson(text, threads);
    if |chunks| <= 1 {
      var records := SplitLines(text, 0, |text|);
      ViewRestarts(layout, dst, Read(read, records), stumbles(Chunk(0, |text|)));
      t := ParseView(layout, dst, Read(read, records), stumbles(Chunk(0, |text|)));
      return;
    }
    TilesInside(text, chunks);
    var workers: seq<Table> := [];
    while |workers| < |chunks|
      invariant |workers| <= |chunks|
      invariant forall k | 0 <= k < |workers| ::
                  workers[k] == AddDocuments(layout, Empty(dst), Read(read, Records(text, chunks[k].start, chunks[k].end)))
    {
      var chunk := chunks[|workers|];
      var records := SplitLines(text, chunk.start, chunk.end);
      WorkerRestarts(layout, dst, Read(read, records), stumbles(chunk));
      workers := workers + [ParseView(layout, Empty(dst), Read(read, records), stumbles(chunk))];
    }
    assert workers == WorkersOf(layout, dst, read, text, chunks);
    ghost var batches := ChunkDocs(read, text, chunks);
    forall k | 0 <= k < |chunks| ensures AllWorded(layout, batches[k]) {
      ReadWorded(layout, read, Records(text, chunks[k].start, chunks[k].end));
    }
    AreParsed(layout, dst, rows, workers, batches);
    ChunkDocsFlatten(read, text, chunks);
    TilesKeepRecords(text, chunks);
    t := MergeWorkers(layout, dst, workers, rows, batches);
  }

  lemma TilesInside(text: string, chunks: seq<Chunk>)
    requires Tiles(text, chunks)
    ensures forall k | 0 <= k < |chunks| :: chunks[k].start <= chunks[k].end <= |text|
  {
  }

  lemma AreParsed(layout: Layout, dst: Table, rows: seq<map<nat, Cell>>, workers: seq<Table>, batches: seq<seq<seq<Item>>>)
    requires Keeps(layout, dst, rows) && |workers| == |batches|
    requires forall i | 0 <= i < |workers| :: AllWorded(layout, batches[i]) && workers[i] == AddDocuments(layout, Empty(dst), batches[i])
    ensures Parsed(layout, dst, rows, workers, batches)
  {
    hide Keeps, AllWorded, AddDocuments;
  }

  // ---- What a restart loses ----------------------------------------------------------------------------------------

  /** The same cells in every projected column. */
  ghost predicate SameRows(layout: Layout, t: Table, u: Table) {
    |t.columns| == |u.columns| && forall c: nat | c in layout.projected && c < |t.columns| :: t.columns[c] == u.columns[c]
  }

  lemma FreshRows(layout: Layout, t: Table, docs: seq<seq<Item>>)
    requires Holds(layout, t, []) && AllTidy(layout, docs)
    ensures Holds(layout, AddDocuments(layout, t, docs), RowsOf(layout, docs))
    ensures SameShape(layout, t, AddDocuments(layout, t, docs))
  {
    hide Holds, AllTidy, AddDocuments;
    AddDocumentsHold(layout, t, [], docs);
    assert [] + RowsOf(layout, docs) == RowsOf(layout, docs);
  }

  lemma SameRowsIff(layout: Layout, start: Table, t: Table, u: Table, more: seq<map<nat, Cell>>, rows: seq<map<nat, Cell>>)
    requires Holds(layout, t, rows) && Holds(layout, u, more + rows) && layout.projected != {}
    requires SameShape(layout, start, t) && SameShape(layout, start, u)
    ensures SameRows(layout, t, u) <==> more == []
  {
    hide Represents;
    if more == [] {
      assert more + rows == rows;
      forall c: nat | c in layout.projected && c < |t.columns| ensures t.columns[c] == u.columns[c] {
        RepresentsOne(t.columns[c], u.columns[c], ColumnCells(rows, c));
      }
    } else {
      var c :| c in layout.projected;
      LengthOf(t.columns[c], ColumnCells(rows, c));
      LengthOf(u.columns[c], ColumnCells(more + rows, c));
    }
  }

  lemma LengthOf(b: Buffer, cells: seq<Cell>)
    requires Represents(b, cells)
    ensures b.length == |cells|
  {
  }

  /** A buffer that the fast reader stumbles over is read again from a reset table.  That table holds the rows of
      the buffer only, so its columns are those of reading everything exactly when no earlier document was accepted. */
  lemma RestartKeepsIff(layout: Layout, empty: Table, earlier: seq<seq<Item>>, docs: seq<seq<Item>>)
    requires Holds(layout, empty, []) && AllTidy(layout, earlier) && AllTidy(layout, docs) && layout.projected != {}
    ensures var kept, all := AddDocuments(layout, empty, docs), AddDocuments(layout, empty, earlier + docs);
            && Holds(layout, kept, RowsOf(layout, docs))
            && Holds(layout, all, RowsOf(layout, earlier) + RowsOf(layout, docs))
            && (SameRows(layout, kept, all) <==> RowsOf(layout, earlier) == [])
  {
    TidyConcat(layout, earlier, docs);
    hide Holds, SameRows, SameShape, AllTidy, AddDocuments, RowsOf;
    FreshRows(layout, empty, docs);
    FreshRows(layout, empty, earlier + docs);
    RowsConcat(layout, earlier, docs);
    SameRowsIff(layout, empty, AddDocuments(layout, empty, docs), AddDocuments(layout, empty, earlier + docs),
                RowsOf(layout, earlier), RowsOf(layout, docs));
  }

  lemma TidyConcat(layout: Layout, a: seq<seq<Item>>, b: seq<seq<Item>>)
    requires AllTidy(layout, a) && AllTidy(layout, b)
    ensures AllTidy(layout, a + b)
  {
    hide Tidy;
  }

  /** Of the counters, the restart forgets how many documents there were, and how many were rejected. */
  lemma RestartForgets(layout: Layout, empty: Table, earlier: seq<seq<Item>>, docs: seq<seq<Item>>)
    ensures var kept, all := AddDocuments(layout, empty, docs), AddDocuments(layout, empty, earlier + docs);
            && all.nextRow == kept.nextRow + |earlier|
            && all.skipped == kept.skipped + |Failures(layout, earlier, empty.nextRow)|
  {
    AddDocumentsAccounted(layout, empty, docs);
    AddDocumentsAccounted(layout, empty, earlier + docs);
    FailuresConcat(layout, earlier, docs, empty.nextRow);
    FailureCount(layout, docs, empty.nextRow, empty.nextRow + |earlier|);
  }

  lemma {:induction false} FailureCount(layout: Layout, docs: seq<seq<Item>>, first: nat, other: nat)
    ensures |Failures(layout, docs, first)| == |Failures(layout, docs, other)|
  {
    if docs != [] { FailureCount(layout, docs[..|docs| - 1], first, other); }
  }
}
