/** Documents that are rejected after a field was appended: when the columns of a single pass, and of a worker that
    starts with the document, hold the accepted rows. */
module RejectTraces {
  import M = ByteMask
  import opened ColumnBuffer
  import opened Ingest
  import opened ParallelIngest

  lemma NullsSay(b: Buffer)
    requires Represents(b, [Null, Null])
    ensures b.nullable ==> |b.validity| == 1 && !M.At(b.validity, 1)
    ensures b.kind.Flags? ==> |b.flags| == 1 && !M.At(b.flags, 1)
  {
    hide TextOf, OffsetsOf, NullsOf;
    if b.nullable {
      assert M.Rows(b.validity, 2)[1] == Valids([Null, Null])[1];
    }
    if b.kind.Flags? {
      assert M.Rows(b.flags, 2)[1] == FlagsOf([Null, Null])[1];
    }
  }

  /** The bit that an aborted cell left in the second row's place turns that row's null into something else. */
  lemma TraceStays(b: Buffer, cell: Cell)
    requires Represents(b, [Null]) && Fits(b.kind, cell) && !Harmless(b.nullable, cell)
    ensures !Represents(Append(Aborted(b, cell), Null), [Null, Null])
  {
    hide Represents, Aborted;
    var next := Append(Aborted(b, cell), Null);
    AbortKind(b, cell);
    if b.nullable && !cell.Null? {
      NextNullIff(b, [Null], cell);
    } else {
      NextFalseIff(b, [Null], cell);
      SameFalse(Aborted(b, cell));
    }
    if Represents(next, [Null, Null]) { NullsSay(next); }
  }

  lemma AbortKind(b: Buffer, cell: Cell)
    ensures Aborted(b, cell).kind == b.kind && Aborted(b, cell).nullable == b.nullable
  {
  }

  lemma SameFalse(b: Buffer)
    requires b.kind.Flags?
    ensures Append(b, Null).flags == Append(b, Flag(false)).flags
  {
  }

  /** In an empty column an abort leaves nothing. */
  lemma EmptyAbort(b: Buffer, cell: Cell)
    requires Represents(b, []) && Fits(b.kind, cell)
    ensures Aborted(b, cell) == b
  {
    RepresentsAligned(b, []);
    AbortRestores(b, 0, cell);
  }

  lemma WorkerStarts(layout: Layout, empty: Table, bad: seq<Item>)
    requires Holds(layout, empty, []) && layout.Coerced(bad) && Scan(layout, bad, map[]).Failed?
    ensures Holds(layout, AddDocument(layout, empty, bad), [])
  {
    hide Aborted, Represents, Scan;
    var s := Scan(layout, bad, map[]);
    ScanFits(layout, bad, map[]);
    forall c | 0 <= c < |empty.columns| ensures Undone(empty.columns, s.row)[c] == empty.columns[c] {
      if c in s.row {
        assert ColumnCells([], c) == [];
        EmptyAbort(empty.columns[c], s.row[c]);
      }
    }
    assert Undone(empty.columns, s.row) == empty.columns;
  }

  const NOROWS: seq<map<nat, Cell>> := []

  /** A document without fields is a row of nulls. */
  lemma NullRow(layout: Layout)
    ensures Tidy(layout, []) && Scan(layout, [], map[]) == Complete(map[]) && RowsOf(layout, [[]]) == [map[]]
  {
    assert RowsOf(layout, [[]]) == RowsOf(layout, [[]][..0]) + [map[]];
  }

  lemma RejectedColumn(layout: Layout, t: Table, bad: seq<Item>, c: nat)
    requires Scan(layout, bad, map[]).Failed? && c in Scan(layout, bad, map[]).row && c < |t.columns|
    ensures var u := AddDocument(layout, t, bad);
            |u.columns| == |t.columns| && u.columns[c] == Aborted(t.columns[c], Scan(layout, bad, map[]).row[c])
  {
    hide Scan, Aborted;
  }

  lemma NullColumn(layout: Layout, t: Table, c: nat)
    requires c in layout.projected && c < |t.columns|
    ensures var u := AddDocument(layout, t, []); |u.columns| == |t.columns| && u.columns[c] == Append(t.columns[c], Null)
  {
    hide Append;
  }

  /** Between two rows of nulls the document leaves its trace. */
  lemma TraceBetween(layout: Layout, empty: Table, bad: seq<Item>)
    requires Holds(layout, empty, []) && layout.Coerced(bad)
    requires Scan(layout, bad, map[]).Failed? && !NoTrace(layout, Scan(layout, bad, map[]).row)
    ensures !Holds(layout, AddDocuments(layout, empty, [[], bad, []]), [map[], map[]])
  {
    hide Represents, Aborted, Append, Harmless, Fits, Scan, AddDocument, AddDocuments, Tidy, Layout.Coerced;
    var row := Scan(layout, bad, map[]).row;
    ScanFits(layout, bad, map[]);
    NullRow(layout);
    AddDocumentHolds(layout, empty, [], []);
    assert NOROWS + [map[]] == [map[]];
    var first := AddDocument(layout, empty, []);
    var second := AddDocument(layout, first, bad);
    ThreeDocuments(layout, empty, [], bad, []);
    var c :| c in row && !(c < |layout.nullable| && Harmless(layout.nullable[c], row[c]));
    assert ColumnCells([map[]], c) == [Null] && ColumnCells([map[], map[]], c) == [Null, Null];
    RejectedColumn(layout, first, bad, c);
    NullColumn(layout, second, c);
    TraceStays(first.columns[c], row[c]);
  }

  lemma ThreeDocuments(layout: Layout, t: Table, a: seq<Item>, b: seq<Item>, c: seq<Item>)
    ensures AddDocuments(layout, t, [a, b, c]) == AddDocument(layout, AddDocument(layout, AddDocument(layout, t, a), b), c)
  {
    hide AddDocument;
    assert [a, b, c][..2] == [a, b] && [a, b][..1] == [a] && [a][..0] == [];
    assert AddDocuments(layout, t, [a, b]) == AddDocument(layout, AddDocuments(layout, t, [a]), b);
    assert AddDocuments(layout, t, [a]) == AddDocument(layout, AddDocuments(layout, t, []), a);
  }

  /** The documents around a rejected one are added as if it were not there. */
  ghost predicate Unnoticed(layout: Layout, empty: Table, before: seq<seq<Item>>, bad: seq<Item>, after: seq<seq<Item>>) {
    Holds(layout, AddDocuments(layout, empty, before + [bad] + after), RowsOf(layout, before) + RowsOf(layout, after))
  }

  lemma TidyUnnoticed(layout: Layout, empty: Table, before: seq<seq<Item>>, bad: seq<Item>, after: seq<seq<Item>>)
    requires Holds(layout, empty, []) && AllTidy(layout, before) && AllTidy(layout, after)
    requires Tidy(layout, bad) && Scan(layout, bad, map[]).Failed?
    ensures Unnoticed(layout, empty, before, bad, after)
  {
    hide Holds, Tidy, AddDocuments, Scan;
    var docs := before + [bad] + after;
    AddDocumentsHold(layout, empty, [], docs);
    RowsConcat(layout, before + [bad], after);
    assert (before + [bad])[..|before|] == before;
    assert RowsOf(layout, before + [bad]) == RowsOf(layout, before);
    assert [] + RowsOf(layout, docs) == RowsOf(layout, before) + RowsOf(layout, after);
  }

  /** A rejected document goes unnoticed wherever it stands exactly when it appended nothing but cells that an abort
      takes back without a trace. */
  lemma UnnoticedIff(layout: Layout, empty: Table, bad: seq<Item>)
    requires Holds(layout, empty, []) && layout.Coerced(bad)
    requires Scan(layout, bad, map[]).Failed? && Scan(layout, bad, map[]).message != ""
    ensures NoTrace(layout, Scan(layout, bad, map[]).row) <==>
            forall before: seq<seq<Item>>, after: seq<seq<Item>> | AllTidy(layout, before) && AllTidy(layout, after) ::
              Unnoticed(layout, empty, before, bad, after)
  {
    hide Holds, AddDocuments, Scan, NoTrace;
    if NoTrace(layout, Scan(layout, bad, map[]).row) {
      forall before: seq<seq<Item>>, after: seq<seq<Item>> | AllTidy(layout, before) && AllTidy(layout, after)
        ensures Unnoticed(layout, empty, before, bad, after)
      {
        TidyUnnoticed(layout, empty, before, bad, after);
      }
    } else {
      NullRow(layout);
      TraceBetween(layout, empty, bad);
      var blank: seq<seq<Item>> := [[]];
      var row: map<nat, Cell> := map[];
      assert blank + [bad] + blank == [[], bad, []];
      assert [row] + [row] == [row, row];
      assert !Unnoticed(layout, empty, [[]], bad, [[]]);
    }
  }

  /** A worker that starts with the document always adds the rest as if it were not there: where a buffer is cut
      decides what the table holds, unless the document leaves no trace. */
  lemma FirstUnnoticed(layout: Layout, empty: Table, bad: seq<Item>, after: seq<seq<Item>>)
    requires Holds(layout, empty, []) && layout.Coerced(bad) && Scan(layout, bad, map[]).Failed? && AllTidy(layout, after)
    ensures Unnoticed(layout, empty, [], bad, after)
  {
    hide Holds, Tidy, Scan, AddDocument;
    WorkerStarts(layout, empty, bad);
    AddDocumentsHold(layout, AddDocument(layout, empty, bad), [], after);
    AddFirst(layout, empty, bad, after);
    assert [] + [bad] + after == [bad] + after;
  }

  lemma {:induction false} AddFirst(layout: Layout, t: Table, first: seq<Item>, docs: seq<seq<Item>>)
    ensures AddDocuments(layout, t, [first] + docs) == AddDocuments(layout, AddDocument(layout, t, first), docs)
    decreases |docs|
  {
    hide AddDocument;
    var all := [first] + docs;
    if docs == [] {
      assert all == [first] && all[..0] == [];
    } else {
      assert all[..|all| - 1] == [first] + docs[..|docs| - 1];
      AddFirst(layout, t, first, docs[..|docs| - 1]);
    }
  }
}
