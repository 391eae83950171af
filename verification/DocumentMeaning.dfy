/** What a document's fields leave in a row, written out over the list of fields. */
module DocumentMeaning {
  import opened ColumnBuffer
  import opened Ingest

  /** One of the first n items is a field of column c. */
  ghost predicate Given(items: seq<Item>, n: nat, c: nat) {
    exists k :: 0 <= k < n && k < |items| && OfColumn(items[k], c)
  }

  predicate OfColumn(item: Item, c: nat) {
    item.Field? && item.col == c
  }

  /** The first field of column c among the first n items has this cell. */
  ghost predicate FirstGives(items: seq<Item>, n: nat, c: nat, cell: Cell) {
    exists k: nat :: k < n && k < |items| && items[k] == Field(c, cell) && !Given(items, k, c)
  }

  ghost predicate AllGiven(layout: Layout, items: seq<Item>, n: nat) {
    forall c | c in layout.projected :: Given(items, n, c)
  }

  /** The row holds, for each projected column that the first n items give, the first cell they give it. */
  ghost predicate RowOfFirst(layout: Layout, items: seq<Item>, n: nat, row: map<nat, Cell>) {
    && (forall c: nat :: c in row <==> c in layout.projected && Given(items, n, c))
    && (forall c | c in row :: FirstGives(items, n, c, row[c]))
  }

  /** Reading stops behind the first n items: all are fields, and a flat document is not read on once every projected
      column has a field. */
  ghost predicate ReadTo(layout: Layout, items: seq<Item>, n: nat) {
    && n <= |items| && (forall k | 0 <= k < n :: items[k].Field?)
    && (forall k: nat | k < n && layout.flat && layout.projected != {} :: !AllGiven(layout, items, k))
  }

  /** How reading ends: at the end of the list, or early with a full row; or at an item that ends the document. */
  ghost predicate Ends(layout: Layout, items: seq<Item>, n: nat, s: Scanned)
    requires n <= |items|
  {
    match s
    case Complete(_) => n == |items| || (layout.flat && layout.projected != {} && AllGiven(layout, items, n))
    case Failed(_, message) => n < |items| && items[n] == Broken(message) && !(layout.flat && layout.projected != {} && AllGiven(layout, items, n))
  }

  lemma GivenStep(items: seq<Item>, n: nat, c: nat)
    requires n < |items|
    ensures Given(items, n + 1, c) <==> Given(items, n, c) || OfColumn(items[n], c)
  {
  }

  lemma FirstStep(items: seq<Item>, n: nat, c: nat, cell: Cell)
    requires n < |items|
    ensures FirstGives(items, n, c, cell) ==> FirstGives(items, n + 1, c, cell)
    ensures items[n] == Field(c, cell) && !Given(items, n, c) ==> FirstGives(items, n + 1, c, cell)
  {
  }

  /** A field that changes nothing, and one that is taken. */
  lemma RowStep(layout: Layout, items: seq<Item>, n: nat, row: map<nat, Cell>)
    requires n < |items| && items[n].Field? && RowOfFirst(layout, items, n, row)
    ensures var col, cell := items[n].col, items[n].cell;
            RowOfFirst(layout, items, n + 1, if col < 0 || col !in layout.projected || col in row then row else row[col := cell])
  {
    hide Given, FirstGives;
    var col, cell := items[n].col, items[n].cell;
    var after := if col < 0 || col !in layout.projected || col in row then row else row[col := cell];
    forall c: nat ensures c in after <==> c in layout.projected && Given(items, n + 1, c) { GivenStep(items, n, c); }
    forall c | c in after ensures FirstGives(items, n + 1, c, after[c]) { FirstStep(items, n, c, after[c]); }
  }

  lemma FullIff(layout: Layout, items: seq<Item>, n: nat, row: map<nat, Cell>)
    requires RowOfFirst(layout, items, n, row)
    ensures row.Keys == layout.projected <==> AllGiven(layout, items, n)
  {
    hide Given, FirstGives;
  }

  lemma {:induction false} ScanFrom(layout: Layout, items: seq<Item>, i: nat, row: map<nat, Cell>) returns (n: nat)
    requires row.Keys <= layout.projected && ReadTo(layout, items, i) && RowOfFirst(layout, items, i, row)
    requires layout.flat && layout.projected != {} ==> !AllGiven(layout, items, i)
    ensures ReadTo(layout, items, n) && RowOfFirst(layout, items, n, Scan(layout, items[i..], row).row)
    ensures Ends(layout, items, n, Scan(layout, items[i..], row))
    decreases |items| - i
  {
    hide Given, FirstGives, RowOfFirst, AllGiven;
    n := i;
    if i < |items| && items[i].Field? {
      var col, cell := items[i].col, items[i].cell;
      var taken := !(col < 0 || col !in layout.projected || col in row);
      var more := if taken then row[col := cell] else row;
      assert items[i..][1..] == items[i + 1..];
      RowStep(layout, items, i, row);
      FullIff(layout, items, i, row);
      FullIff(layout, items, i + 1, more);
      if taken && layout.flat && more.Keys == layout.projected {
        n := i + 1;
      } else {
        n := ScanFrom(layout, items, i + 1, more);
      }
    }
  }

  /** The row of a document: for each projected column the first cell that the items read give it. They are the items in
      front of the one that ends the document or, in a flat document, up to the first with which no projected column
      lacks a field; whatever stands behind is not looked at. */
  lemma ScanSays(layout: Layout, items: seq<Item>) returns (n: nat)
    ensures ReadTo(layout, items, n) && Ends(layout, items, n, Scan(layout, items, map[]))
    ensures RowOfFirst(layout, items, n, Scan(layout, items, map[]).row)
  {
    assert RowOfFirst(layout, items, 0, map[]);
    assert layout.projected != {} ==> !AllGiven(layout, items, 0) by {
      if c :| c in layout.projected { assert !Given(items, 0, c); }
    }
    assert items[0..] == items;
    n := ScanFrom(layout, items, 0, map[]);
  }

  /** A document adds to each projected column its cell, or a null, and a row; one that is not accepted adds no row. */
  lemma DocumentSays(layout: Layout, t: Table, items: seq<Item>, c: nat)
    requires c < |t.columns|
    ensures var s, u := Scan(layout, items, map[]), AddDocument(layout, t, items);
            && |u.columns| == |t.columns| && u.nextRow == t.nextRow + 1
            && (s.Complete? ==> u.size == t.size + 1 && u.skipped == t.skipped && u.samples == t.samples && u.lastError == t.lastError)
            && (s.Complete? && c in layout.projected ==> u.columns[c] == Append(t.columns[c], if c in s.row then s.row[c] else Null))
            && (s.Failed? ==> u.size == t.size && u.skipped == t.skipped + 1 && u.lastError == s.message)
            && (s.Failed? && c in s.row ==> u.columns[c] == Aborted(t.columns[c], s.row[c]))
            && (c !in layout.projected ==> u.columns[c] == t.columns[c])
            && (s.Failed? && c !in s.row ==> u.columns[c] == t.columns[c])
  {
  }
}
