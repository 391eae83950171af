/** `BatchTransposer` as it is written: column objects changed in place, generation marks that tell which
    columns the current row has filled, and sizes to cut back to when the row is aborted. */
module Transposer {
  import opened ColumnBuffer
  import opened Ingest

  const GENERATIONS := 0x1_0000_0000

  class Column {
    const kind: Kind
    const nullable: bool
    var length: nat
    var nulls: nat
    var numbers: seq<int>
    var flags: seq<Bits.Byte>
    var validity: seq<Bits.Byte>
    var offsets: seq<nat>
    var text: string

    function Contents(): Buffer
      reads this
    {
      Buffer(kind, nullable, length, nulls, numbers, flags, validity, offsets, text)
    }

    constructor (kind: Kind, nullable: bool)
      ensures Contents() == Fresh(kind, nullable)
    {
      this.kind, this.nullable := kind, nullable;
      length, nulls, numbers, flags, validity, text := 0, 0, [], [], [], "";
      offsets := if kind.Texts? then [0] else [];
    }

    method PutNull()
      modifies this
      ensures Contents() == AppendNull(old(Contents()))
    {
      if nullable {
        validity := Room(validity, length);
        nulls := nulls + 1;
      }
      match kind {
        case Numbers => numbers := numbers + [0];
        case Flags => flags := PutBit(flags, length, false);
        case Texts => if offsets != [] { offsets := offsets + [offsets[|offsets| - 1]]; }
      }
      if !nullable && validity != [] { validity := PutBit(validity, length, true); }
      length := length + 1;
    }

    method Put(cell: Cell)
      modifies this
      ensures Contents() == Append(old(Contents()), cell)
    {
      if cell.Null? {
        PutNull();
        return;
      }
      if nullable { validity := PutBit(validity, length, true); }
      match cell {
        case Number(n) => numbers := numbers + [n];
        case Flag(v) => flags := PutBit(flags, length, v);
        case Text(s) =>
          text := text + s;
          offsets := offsets + [|text|];
        case Null =>
      }
      length := length + 1;
    }

    method RollBack(s: Snapshot)
      requires Covers(Contents(), s)
      modifies this
      ensures Contents() == Restore(old(Contents()), s)
    {
      length, nulls := s.length, s.nulls;
      numbers, flags, validity := numbers[..s.numbers], flags[..s.flags], validity[..s.validity];
      offsets, text := offsets[..s.offsets], text[..s.text];
    }
  }

  lemma {:induction false} DistinctSize(xs: seq<nat>, s: set<nat>)
    requires (forall i, j | 0 <= i < j < |xs| :: xs[i] != xs[j]) && s == set x | x in xs
    ensures |s| == |xs|
  {
    if xs == [] {
      assert s == {};
    } else {
      var last := |xs| - 1;
      var rest := set x | x in xs[..last];
      DistinctSize(xs[..last], rest);
      assert xs == xs[..last] + [xs[last]];
      assert s == rest + {xs[last]} && xs[last] !in rest;
    }
  }

  lemma SameSize(a: set<nat>, b: set<nat>)
    requires a <= b && |a| >= |b|
    ensures a == b
  {
    if a != b {
      var x :| x in b && x !in a;
      assert b == (b - {x}) + {x};
      SubsetSize(a, b - {x});
    }
  }

  lemma {:induction false} SubsetSize(a: set<nat>, b: set<nat>)
    requires a <= b
    ensures |a| <= |b|
  {
    if a != {} {
      var x :| x in a;
      SubsetSize(a - {x}, b - {x});
      assert a == (a - {x}) + {x} && b == (b - {x}) + {x};
    }
  }

  /** The table before the first document. */
  function Nothing(layout: Layout): Table
    requires |layout.kinds| == |layout.nullable|
  {
    Table(seq(|layout.kinds|, c requires 0 <= c < |layout.kinds| == |layout.nullable| => Fresh(layout.kinds[c], layout.nullable[c])),
          0, 0, 0, [], "")
  }

  lemma NothingSquare(layout: Layout)
    requires |layout.kinds| == |layout.nullable| && layout.Ok()
    ensures Square(layout, Nothing(layout))
  {
  }

  method MakeColumns(layout: Layout) returns (made: seq<Column>)
    requires |layout.kinds| == |layout.nullable|
    ensures |made| == |layout.kinds| && fresh(made)
    ensures forall c | 0 <= c < |made| :: made[c].Contents() == Fresh(layout.kinds[c], layout.nullable[c])
    ensures forall c | 0 <= c < |made| :: made[c].kind == layout.kinds[c] && made[c].nullable == layout.nullable[c]
    ensures forall c, d | 0 <= c < d < |made| :: made[c] != made[d]
  {
    made := [];
    while |made| < |layout.kinds|
      invariant |made| <= |layout.kinds| && fresh(made)
      invariant forall c | 0 <= c < |made| :: made[c].Contents() == Fresh(layout.kinds[c], layout.nullable[c])
      invariant forall c | 0 <= c < |made| :: made[c].kind == layout.kinds[c] && made[c].nullable == layout.nullable[c]
      invariant forall c, d | 0 <= c < d < |made| :: made[c] != made[d]
    {
      var column := new Column(layout.kinds[|made|], layout.nullable[|made|]);
      assert column.kind == column.Contents().kind && column.nullable == column.Contents().nullable;
      made := made + [column];
    }
  }

  class Transposer {
    const layout: Layout
    const columns: seq<Column>
    /** The projected columns, each once. */
    const indices: seq<nat>
    var currentSize: nat
    var skipped: nat
    var rowGeneration: nat
    var seenGeneration: seq<nat>
    var seenCount: nat
    var inputRow: nat
    var samples: seq<Sample>
    var lastError: string

    ghost predicate Shape() {
      && layout.Ok()
      && |columns| == |layout.kinds| == |layout.nullable|
      && (forall c | 0 <= c < |columns| :: columns[c].kind == layout.kinds[c] && columns[c].nullable == layout.nullable[c])
      && (forall c, d | 0 <= c < d < |columns| :: columns[c] != columns[d])
      && (forall i, j | 0 <= i < j < |indices| :: indices[i] != indices[j])
      && layout.projected == (set c | c in indices)
      && (forall i | 0 <= i < |indices| :: indices[i] < |columns|)
    }

    /** No column carries the mark of the row to come. */
    ghost predicate Valid()
      reads this`rowGeneration, this`seenGeneration
    {
      && Shape() && |seenGeneration| == |columns|
      && 0 < rowGeneration < GENERATIONS
      && forall c | 0 <= c < |columns| :: seenGeneration[c] < rowGeneration
    }

    ghost function Views(): (views: seq<Buffer>)
      reads columns
      ensures |views| == |columns| && forall c | 0 <= c < |columns| :: views[c] == columns[c].Contents()
    {
      seq(|columns|, c requires 0 <= c < |columns| reads columns => columns[c].Contents())
    }

    ghost function Contents(): Table
      reads this, columns
    {
      Table(Views(), currentSize, skipped, inputRow, samples, lastError)
    }

    /** No rows yet, and the first row's mark on no column. */
    constructor (layout: Layout, indices: seq<nat>)
      requires |layout.kinds| == |layout.nullable| && layout.projected == (set c | c in indices)
      requires forall i, j | 0 <= i < j < |indices| :: indices[i] != indices[j]
      requires forall i | 0 <= i < |indices| :: indices[i] < |layout.kinds|
      ensures Valid() && this.layout == layout && fresh(columns)
      ensures Contents() == Nothing(layout) && Square(layout, Contents())
    {
      hide Fresh, Square, Column.Contents;
      var made := MakeColumns(layout);
      NothingSquare(layout);
      this.layout, this.indices, columns := layout, indices, made;
      currentSize, skipped, inputRow, seenCount := 0, 0, 0, 0;
      rowGeneration, seenGeneration := 1, seq(|layout.kinds|, _ => 0);
      samples, lastError := [], "";
      new;
      assert Views() == Nothing(layout).columns;
    }

    /** Which columns the current row has filled. */
    ghost predicate Marks(row: map<nat, Cell>)
      reads this`rowGeneration, this`seenGeneration, this`seenCount
    {
      && Shape() && |seenGeneration| == |columns| && 0 < rowGeneration < GENERATIONS
      && (forall c: nat | c < |columns| :: seenGeneration[c] <= rowGeneration)
      && (forall c: nat | c < |columns| :: seenGeneration[c] == rowGeneration <==> c in row)
      && row.Keys <= layout.projected && seenCount == |row|
    }

    lemma CountTellsAll(row: map<nat, Cell>)
      requires Marks(row)
      ensures seenCount >= |indices| <==> row.Keys == layout.projected
    {
      DistinctSize(indices, layout.projected);
      assert |row| == |row.Keys|;
      if seenCount >= |indices| { SameSize(row.Keys, layout.projected); }
    }

    method MarkSeen(c: nat, ghost row: map<nat, Cell>, ghost cell: Cell) returns (first: bool)
      requires Marks(row) && c in layout.projected
      modifies this`seenGeneration, this`seenCount
      ensures first == (c !in row)
      ensures Marks(if first then row[c := cell] else row)
    {
      if seenGeneration[c] == rowGeneration { return false; }
      seenGeneration := seenGeneration[c := rowGeneration];
      seenCount := seenCount + 1;
      return true;
    }

    method PutInto(c: nat, cell: Cell)
      requires Shape() && c < |columns|
      modifies columns[c]
      ensures Views() == old(Views())[c := Append(old(Views())[c], cell)]
    {
      columns[c].Put(cell);
    }

    /** The generation after a row; when the counter wraps, all marks are cleared. */
    method NextRow(ghost row: map<nat, Cell>)
      requires Marks(row)
      modifies this`rowGeneration, this`seenGeneration, this`inputRow
      ensures Valid() && inputRow == old(inputRow) + 1
      ensures old(rowGeneration) < 0xffff_ffff ==> rowGeneration == old(rowGeneration) + 1 && seenGeneration == old(seenGeneration)
      ensures old(rowGeneration) == 0xffff_ffff ==> rowGeneration == 1
    {
      hide Shape;
      rowGeneration := (rowGeneration + 1) % GENERATIONS;
      if rowGeneration == 0 {
        seenGeneration := seq(|seenGeneration|, _ => 0);
        rowGeneration := 1;
      }
      inputRow := inputRow + 1;
    }

    method TakeSnapshots() returns (snapshots: seq<Snapshot>)
      requires Shape()
      ensures |snapshots| == |indices| && forall i | 0 <= i < |indices| :: snapshots[i] == Snap(Views()[indices[i]])
    {
      snapshots := [];
      var i := 0;
      while i < |indices|
        invariant 0 <= i <= |indices| && |snapshots| == i
        invariant forall k | 0 <= k < i :: snapshots[k] == Snap(Views()[indices[k]])
      {
        assert indices[i] in layout.projected;
        var c := columns[indices[i]];
        snapshots := snapshots + [Snapshot(c.length, c.nulls, |c.numbers|, |c.flags|, |c.validity|, |c.offsets|, |c.text|)];
        i := i + 1;
      }
    }

    method CutBack(c: nat, snapshot: Snapshot)
      requires Shape() && c < |columns| && Covers(Views()[c], snapshot)
      modifies columns[c]
      ensures Views() == old(Views())[c := Restore(old(Views())[c], snapshot)]
    {
      columns[c].RollBack(snapshot);
    }

    /** `append_json_document_single_pass`. */
    method AppendDocument(items: seq<Item>) returns (ok: bool)
      requires Valid() && Square(layout, Contents()) && layout.Coerced(items)
      modifies this, columns
      ensures Valid() && Contents() == AddDocument(layout, old(Contents()), items)
      ensures ok == Scan(layout, items, map[]).Complete?
      ensures Square(layout, Contents())
    {
      ghost var before := Contents();
      AddDocumentSquare(layout, before, items);
      hide Square, Views, Scan, Partly, Filled, Undone, Snap, Shape, Unharmed, AddDocument;
      var snapshots := TakeSnapshots();
      ghost var row: map<nat, Cell>;
      var message;
      ok, row, message := ReadFields(items);
      AddScanned(layout, before, items);
      if ok {
        Accept(before, row);
      } else {
        Reject(snapshots, before, row, message);
      }
    }

    method Accept(ghost before: Table, ghost row: map<nat, Cell>)
      requires Marks(row) && |before.columns| == |columns|
      requires Contents() == before.(columns := Partly(before.columns, row))
      modifies this`currentSize, this`rowGeneration, this`seenGeneration, this`inputRow, columns
      ensures Valid()
      ensures Contents() == before.(columns := Filled(layout, before.columns, row), size := before.size + 1, nextRow := before.nextRow + 1)
    {
      hide Views, Partly, Filled, Shape;
      FillRest(before.columns, row);
      currentSize := currentSize + 1;
      NextRow(row);
    }

    method Reject(snapshots: seq<Snapshot>, ghost before: Table, ghost row: map<nat, Cell>, message: string)
      requires Marks(row) && |before.columns| == |columns|
      requires Contents() == before.(columns := Partly(before.columns, row))
      requires |snapshots| == |indices| && forall i | 0 <= i < |indices| :: snapshots[i] == Snap(before.columns[indices[i]])
      modifies this`skipped, this`lastError, this`samples, this`rowGeneration, this`seenGeneration, this`inputRow, columns
      ensures Valid()
      ensures Contents() == Skip(layout, before, message).(columns := Undone(before.columns, row), nextRow := before.nextRow + 1)
    {
      hide Views, Partly, Undone, Snap;
      RollBack(snapshots, before.columns, row);
      Skipped(message);
      NextRow(row);
    }

    /** `record_error` for a skipped record. */
    method Skipped(message: string)
      modifies this`skipped, this`lastError, this`samples
      ensures skipped == old(skipped) + 1 && lastError == message
      ensures samples == if |old(samples)| < layout.maxSamples then old(samples) + [Sample(message, inputRow)] else old(samples)
    {
      skipped := skipped + 1;
      lastError := message;
      if |samples| < layout.maxSamples { samples := samples + [Sample(message, inputRow)]; }
    }

    /** The loop over the document's fields. */
    method ReadFields(items: seq<Item>) returns (ok: bool, ghost row: map<nat, Cell>, message: string)
      requires Valid() && layout.Coerced(items)
      modifies this`seenGeneration, this`seenCount, columns
      ensures Marks(row) && Views() == Partly(old(Views()), row)
      ensures Scan(layout, items, map[]) == if ok then Complete(row) else Failed(row, message)
    {
      hide *;
      seenCount := 0;
      row, message := map[], "";
      StartMarks();
      ghost var start := Views();
      PartlyNone(start);
      assert items[0..] == items;
      var k := 0;
      while k < |items|
        invariant 0 <= k <= |items| && Marks(row) && row.Keys <= layout.projected
        invariant Views() == Partly(start, row)
        invariant Scan(layout, items, map[]) == Scan(layout, items[k..], row)
      {
        ScanStep(layout, items, k, row);
        match items[k] {
          case Broken(text) => return false, row, text;
          case Field(col, cell) =>
            var full;
            full, row := TakeField(col, cell, start, row);
            MarksTell(row);
            if full { return true, row, message; }
        }
        k := k + 1;
      }
      ScanEnd(layout, items, row);
      return true, row, message;
    }

    lemma StartMarks()
      requires Valid() && seenCount == 0
      ensures Marks(map[])
    {
    }

    lemma MarksTell(row: map<nat, Cell>)
      requires Marks(row)
      ensures Shape() && row.Keys <= layout.projected
      ensures layout.projected == (set c | c in indices)
    {
    }

    lemma InShape()
      requires Shape()
      ensures forall c | c in layout.projected :: c < |columns|
      ensures forall i | 0 <= i < |indices| :: indices[i] in layout.projected && indices[i] !in indices[..i]
    {
    }

    /** One field: appended to its column if that is projected and still without one in this row. */
    method TakeField(col: int, cell: Cell, ghost start: seq<Buffer>, ghost row: map<nat, Cell>)
      returns (full: bool, ghost after: map<nat, Cell>)
      requires Marks(row) && |start| == |columns| && Views() == Partly(start, row)
      modifies this`seenGeneration, this`seenCount, columns
      ensures Marks(after) && Views() == Partly(start, after)
      ensures after == if col < 0 || col !in layout.projected || col in row then row else row[col := cell]
      ensures full == (after != row && layout.flat && after.Keys == layout.projected)
    {
      hide *;
      full, after := false, row;
      MarksTell(row);
      InShape();
      if col >= 0 && col in layout.projected {
        var first := MarkSeen(col, row, cell);
        if first {
          after := row[col := cell];
          PartlyMore(start, row, col, cell);
          CountTellsAll(after);
          full := layout.flat && seenCount >= |indices|;
          PutInto(col, cell);
        }
      }
    }

    /** Defaults for the projected columns without a field. */
    method FillRest(ghost start: seq<Buffer>, ghost row: map<nat, Cell>)
      requires Marks(row) && |start| == |columns| && Views() == Partly(start, row)
      modifies columns
      ensures Views() == Filled(layout, start, row)
    {
      hide *;
      MarksTell(row);
      InShape();
      CountTellsAll(row);
      FilledStart(layout, start, row);
      if seenCount < |indices| {
        var i := 0;
        while i < |indices|
          invariant 0 <= i <= |indices| && Marks(row)
          invariant Views() == PartlyFilled(start, row, indices[..i])
        {
          var c := indices[i];
          MarkOf(row, c);
          FilledMore(start, row, indices, i);
          if seenGeneration[c] != rowGeneration { PutInto(c, Null); }
          i := i + 1;
        }
        FilledEnd(layout, start, row, indices);
      }
    }

    lemma MarkOf(row: map<nat, Cell>, c: nat)
      requires Marks(row) && c < |columns|
      ensures c < |seenGeneration| && (seenGeneration[c] == rowGeneration <==> c in row)
    {
    }

    /** `abort_malformed_row`: every projected column is cut back to its sizes before the row. */
    method RollBack(snapshots: seq<Snapshot>, ghost start: seq<Buffer>, ghost row: map<nat, Cell>)
      requires Shape() && |start| == |columns| && row.Keys <= layout.projected && Views() == Partly(start, row)
      requires layout.projected == (set c | c in indices) && |snapshots| == |indices|
      requires forall i | 0 <= i < |indices| :: snapshots[i] == Snap(start[indices[i]])
      modifies columns
      ensures Views() == Undone(start, row)
    {
      hide *;
      InShape();
      UndoneStart(start, row, indices);
      var i := 0;
      while i < |indices|
        invariant 0 <= i <= |indices|
        invariant Views() == PartlyUndone(start, row, indices[..i])
      {
        UndoneMore(start, row, indices, i);
        CutBack(indices[i], snapshots[i]);
        i := i + 1;
      }
      UndoneEnd(layout, start, row, indices);
    }
  }

  // ---- The loops' steps on values ----------------------------------------------------------------------------------

  lemma PartlyMore(start: seq<Buffer>, row: map<nat, Cell>, c: nat, cell: Cell)
    requires c < |start| && c !in row
    ensures Partly(start, row[c := cell]) == Partly(start, row)[c := Append(Partly(start, row)[c], cell)]
  {
  }

  /** With defaults in the columns of `done` that have no cell in the row. */
  ghost function PartlyFilled(start: seq<Buffer>, row: map<nat, Cell>, done: seq<nat>): (out: seq<Buffer>)
    ensures |out| == |start|
  {
    seq(|start|, c requires 0 <= c < |start| =>
      if c in row then Append(start[c], row[c]) else if c in done then Append(start[c], Null) else start[c])
  }

  lemma FilledStart(layout: Layout, start: seq<Buffer>, row: map<nat, Cell>)
    ensures forall none: seq<nat> | none == [] :: PartlyFilled(start, row, none) == Partly(start, row)
    ensures row.Keys == layout.projected ==> Partly(start, row) == Filled(layout, start, row)
  {
  }

  lemma FilledMore(start: seq<Buffer>, row: map<nat, Cell>, indices: seq<nat>, i: nat)
    requires i < |indices| && indices[i] < |start| && indices[i] !in indices[..i]
    ensures var c, now := indices[i], PartlyFilled(start, row, indices[..i]);
            PartlyFilled(start, row, indices[..i + 1]) == if c in row then now else now[c := Append(now[c], Null)]
  {
    assert indices[..i + 1] == indices[..i] + [indices[i]];
  }

  lemma FilledEnd(layout: Layout, start: seq<Buffer>, row: map<nat, Cell>, indices: seq<nat>)
    requires layout.projected == (set c | c in indices) && row.Keys <= layout.projected
    ensures indices[..|indices|] == indices && PartlyFilled(start, row, indices) == Filled(layout, start, row)
  {
  }

  /** With the columns of `done` cut back. */
  ghost function PartlyUndone(start: seq<Buffer>, row: map<nat, Cell>, done: seq<nat>): (out: seq<Buffer>)
    ensures |out| == |start|
  {
    seq(|start|, c requires 0 <= c < |start| =>
      if c !in row then start[c] else if c in done then Aborted(start[c], row[c]) else Append(start[c], row[c]))
  }

  lemma UndoneStart(start: seq<Buffer>, row: map<nat, Cell>, indices: seq<nat>)
    ensures Partly(start, row) == PartlyUndone(start, row, indices[..0])
  {
  }

  lemma UndoneEnd(layout: Layout, start: seq<Buffer>, row: map<nat, Cell>, indices: seq<nat>)
    requires layout.projected == (set c | c in indices) && row.Keys <= layout.projected
    ensures indices[..|indices|] == indices && PartlyUndone(start, row, indices) == Undone(start, row)
  {
  }

  lemma PartlyNone(start: seq<Buffer>)
    ensures Partly(start, map[]) == start
  {
  }

  lemma ScanStep(layout: Layout, items: seq<Item>, k: nat, row: map<nat, Cell>)
    requires k < |items| && row.Keys <= layout.projected
    ensures Scan(layout, items[k..], row) ==
            match items[k]
            case Broken(message) => Failed(row, message)
            case Field(col, cell) =>
              if col < 0 || col !in layout.projected || col in row then Scan(layout, items[k + 1..], row)
              else if layout.flat && row[col := cell].Keys == layout.projected then Complete(row[col := cell])
              else Scan(layout, items[k + 1..], row[col := cell])
  {
    assert items[k..][1..] == items[k + 1..];
  }

  lemma ScanEnd(layout: Layout, items: seq<Item>, row: map<nat, Cell>)
    requires row.Keys <= layout.projected
    ensures Scan(layout, items[|items|..], row) == Complete(row)
  {
  }

  lemma UndoneMore(start: seq<Buffer>, row: map<nat, Cell>, indices: seq<nat>, i: nat)
    requires i < |indices| && indices[i] < |start| && indices[i] !in indices[..i]
    ensures var c, now := indices[i], PartlyUndone(start, row, indices[..i]);
            && Covers(now[c], Snap(start[c]))
            && PartlyUndone(start, row, indices[..i + 1]) == now[c := Restore(now[c], Snap(start[c]))]
  {
    var c := indices[i];
    assert indices[..i + 1] == indices[..i] + [c];
    if c in row { AppendCovers(start[c], row[c]); } else { RestoreSame(start[c]); }
  }

  lemma RestoreSame(b: Buffer)
    ensures Restore(b, Snap(b)) == b
  {
    assert b.numbers[..|b.numbers|] == b.numbers && b.flags[..|b.flags|] == b.flags;
    assert b.validity[..|b.validity|] == b.validity && b.offsets[..|b.offsets|] == b.offsets && b.text[..|b.text|] == b.text;
  }

  lemma AddScanned(layout: Layout, t: Table, items: seq<Item>)
    ensures AddDocument(layout, t, items) ==
            match Scan(layout, items, map[])
            case Complete(row) => t.(columns := Filled(layout, t.columns, row), size := t.size + 1, nextRow := t.nextRow + 1)
            case Failed(row, message) => Skip(layout, t, message).(columns := Undone(t.columns, row), nextRow := t.nextRow + 1)
  {
  }
}
