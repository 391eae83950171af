/** One JSON document after the other: its fields appended to the projected columns, the missing ones
    filled in, a malformed one rolled back. */
module Ingest {
  import opened Bits
  import opened ByteMask
  import opened ColumnBuffer

  /** What the parser hands over next: a field of some column (or none) with its coerced value, or the
      error that ends the document. */
  datatype Item = Field(col: int, cell: Cell) | Broken(message: string)

  datatype Sample = Sample(message: string, row: nat)

  /** What does not change while documents are added. */
  datatype Layout = Layout(kinds: seq<Kind>, nullable: seq<bool>, projected: set<nat>, maxSamples: nat, flat: bool) {
    ghost predicate Ok() {
      forall c | c in projected :: c < |kinds|
    }

    /** The parser coerces a value to its column's type. */
    ghost predicate Coerced(items: seq<Item>) {
      forall k | 0 <= k < |items| && items[k].Field? && 0 <= items[k].col < |kinds| :: Fits(kinds[items[k].col], items[k].cell)
    }
  }

  /** The transposer's state between documents. */
  datatype Table = Table(columns: seq<Buffer>, size: nat, skipped: nat, nextRow: nat, samples: seq<Sample>, lastError: string)

  // ---- One document --------------------------------------------------------------------------------------------

  /** The cells a document puts into the projected columns, and whether it is read to its end. */
  datatype Scanned = Complete(row: map<nat, Cell>) | Failed(row: map<nat, Cell>, message: string)

  /** A column takes its first field only; a flat document is left as soon as every column has one. */
  function Scan(layout: Layout, items: seq<Item>, row: map<nat, Cell>): (s: Scanned)
    requires row.Keys <= layout.projected
    ensures row.Keys <= s.row.Keys <= layout.projected
    decreases |items|
  {
    if items == [] then Complete(row)
    else
      match items[0]
      case Broken(message) => Failed(row, message)
      case Field(col, cell) =>
        if col < 0 || col !in layout.projected || col in row then Scan(layout, items[1..], row)
        else
          var more := row[col := cell];
          if layout.flat && more.Keys == layout.projected then Complete(more) else Scan(layout, items[1..], more)
  }

  /** The columns with some of the row's cells appended. */
  function Partly(columns: seq<Buffer>, row: map<nat, Cell>): (out: seq<Buffer>)
    ensures |out| == |columns|
  {
    seq(|columns|, c requires 0 <= c < |columns| => if c in row then Append(columns[c], row[c]) else columns[c])
  }

  /** Every projected column one row longer. */
  function Filled(layout: Layout, columns: seq<Buffer>, row: map<nat, Cell>): (out: seq<Buffer>)
    ensures |out| == |columns|
  {
    seq(|columns|, c requires 0 <= c < |columns| =>
      if c in layout.projected then Append(columns[c], if c in row then row[c] else Null) else columns[c])
  }

  /** The columns after the rollback. */
  function Undone(columns: seq<Buffer>, row: map<nat, Cell>): (out: seq<Buffer>)
    ensures |out| == |columns|
  {
    seq(|columns|, c requires 0 <= c < |columns| => if c in row then Aborted(columns[c], row[c]) else columns[c])
  }

  /** `record_error` for a skipped record. */
  function Skip(layout: Layout, t: Table, message: string): Table {
    t.(skipped := t.skipped + 1, lastError := message,
       samples := if |t.samples| < layout.maxSamples then t.samples + [Sample(message, t.nextRow)] else t.samples)
  }

  /** `append_json_document_single_pass`. */
  function AddDocument(layout: Layout, t: Table, items: seq<Item>): Table {
    match Scan(layout, items, map[])
    case Complete(row) => t.(columns := Filled(layout, t.columns, row), size := t.size + 1, nextRow := t.nextRow + 1)
    case Failed(row, message) => Skip(layout, t, message).(columns := Undone(t.columns, row), nextRow := t.nextRow + 1)
  }

  // ---- Alignment over all documents ------------------------------------------------------------------------------

  ghost predicate Typed(layout: Layout, t: Table) {
    && |t.columns| == |layout.kinds| == |layout.nullable|
    && forall c: nat | c < |t.columns| :: t.columns[c].kind == layout.kinds[c] && t.columns[c].nullable == layout.nullable[c]
  }

  /** Every projected column has one entry per row. */
  ghost predicate Square(layout: Layout, t: Table) {
    layout.Ok() && Typed(layout, t) && forall c | c in layout.projected :: Aligned(t.columns[c], t.size)
  }

  ghost predicate RowFits(layout: Layout, row: map<nat, Cell>) {
    forall c | c in row :: c < |layout.kinds| && Fits(layout.kinds[c], row[c])
  }

  lemma {:induction false} ScanFits(layout: Layout, items: seq<Item>, row: map<nat, Cell>)
    requires layout.Ok() && layout.Coerced(items) && row.Keys <= layout.projected && RowFits(layout, row)
    ensures RowFits(layout, Scan(layout, items, row).row)
    decreases |items|
  {
    if items != [] && items[0].Field? {
      var col, cell, rest := items[0].col, items[0].cell, items[1..];
      assert forall k | 0 <= k < |rest| :: rest[k] == items[k + 1];
      if col < 0 || col !in layout.projected || col in row {
        ScanFits(layout, rest, row);
      } else {
        ScanFits(layout, rest, row[col := cell]);
      }
    }
  }

  /** After every document, taken or rejected, the projected columns are as long as the table, with rising
      offsets; a rejected one leaves everything of the rows before it as it was. */
  lemma AddDocumentSquare(layout: Layout, t: Table, items: seq<Item>)
    requires Square(layout, t) && layout.Coerced(items)
    ensures var after := AddDocument(layout, t, items);
            && Square(layout, after)
            && after.size == t.size + (if Scan(layout, items, map[]).Complete? then 1 else 0)
            && after.skipped == t.skipped + (if Scan(layout, items, map[]).Failed? then 1 else 0)
            && (Scan(layout, items, map[]).Failed? ==> forall c | c in layout.projected :: Unharmed(t.columns[c], after.columns[c], t.size))
  {
    ScanFits(layout, items, map[]);
    var row := Scan(layout, items, map[]).row;
    forall c | c in layout.projected
      ensures Aligned(Filled(layout, t.columns, row)[c], t.size + 1)
      ensures Aligned(Undone(t.columns, row)[c], t.size) && Unharmed(t.columns[c], Undone(t.columns, row)[c], t.size)
    {
      AppendAligned(t.columns[c], t.size, if c in row then row[c] else Null);
      if c in row { AbortRestores(t.columns[c], t.size, row[c]); }
    }
  }

  /** Lengths, null counts, values, offsets, bytes and the packed bits of the first rows are unchanged. */
  ghost predicate Unharmed(b: Buffer, a: Buffer, rows: nat)
    requires Aligned(b, rows) && Aligned(a, rows)
  {
    && a == b.(flags := a.flags, validity := a.validity)
    && (b.kind.Flags? && a.kind == b.kind ==> Rows(a.flags, rows) == Rows(b.flags, rows))
    && (b.nullable && a.nullable ==> Rows(a.validity, rows) == Rows(b.validity, rows))
  }

  function AddDocuments(layout: Layout, t: Table, docs: seq<seq<Item>>): Table
  {
    if docs == [] then t else AddDocument(layout, AddDocuments(layout, t, docs[..|docs| - 1]), docs[|docs| - 1])
  }

  lemma {:induction false} AddDocumentsSquare(layout: Layout, t: Table, docs: seq<seq<Item>>)
    requires Square(layout, t) && forall k | 0 <= k < |docs| :: layout.Coerced(docs[k])
    ensures var after := AddDocuments(layout, t, docs);
            Square(layout, after) && after.size + after.skipped == t.size + t.skipped + |docs|
  {
    if docs != [] {
      AddDocumentsSquare(layout, t, docs[..|docs| - 1]);
      AddDocumentSquare(layout, AddDocuments(layout, t, docs[..|docs| - 1]), docs[|docs| - 1]);
    }
  }
}
