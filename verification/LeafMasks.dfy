/** From encoded columns to leaf masks: what a predicate's kernel writes is the predicate's answer on each
    row, and for a list of strings the answer of the test on strings. */
module LeafMasks {
  import opened Bits
  import opened ByteMask
  import opened MaskKernels
  import Comparisons
  import opened Casts
  import Columns
  import opened LeafKernels
  import opened Optional
  import opened Predicates
  import C = ClosedValues
  import D = DictEncoder

  /** A predicate's answers on some rows. */
  function Answers(w: World, p: Predicate, rows: seq<Row>): (answers: seq<bool>)
    ensures |answers| == |rows|
  {
    seq(|rows|, i requires 0 <= i < |rows| => Predicates.Holds(w, p, rows[i]))
  }

  // ---- Numeric columns ---------------------------------------------------------------------------------------

  /** Column `col` of the rows holds these numbers, and nulls where the validity bit is not set. */
  ghost predicate NumberColumn(t: NumType, col: int, data: seq<real>, valid: seq<bool>, rows: seq<Row>) {
    && |data| == |valid| == |rows| && Column(t, data)
    && forall i | 0 <= i < |rows| :: rows[i](col) == if valid[i] then Num(data[i]) else Null
  }

  /** A kernel's mask is the predicate's answer on every column of the type, nulls included. */
  ghost predicate KernelAnswers(w: World, p: Predicate, t: NumType, col: int, test: real -> bool) {
    forall data: seq<real>, valid: seq<bool>, rows: seq<Row> ::
      NumberColumn(t, col, data, valid, rows) ==> KernelRows(data, test, valid) == Answers(w, p, rows)
  }

  /** The column of one row with the value v. */
  lemma OneRow(t: NumType, col: int, v: real) returns (row: Row)
    requires Value(t, v)
    ensures row == (_ => Num(v)) && NumberColumn(t, col, [v], [true], [row])
  {
    row := _ => Num(v);
  }

  lemma NumericAnswers(w: World, col: int, ctype: ColumnType, op: OpType, threshold: nat, t: NumType, wild: real -> real)
    requires forall v: real | Value(t, v) :: SameTest(t, wild, NumOpOf(op), w.number(threshold), v)
    ensures KernelAnswers(w, Numeric(col, ctype, op, threshold), t, col, NumericTest(t, wild, NumOpOf(op), w.number(threshold)))
  {
    var p, numOp, x := Numeric(col, ctype, op, threshold), NumOpOf(op), w.number(threshold);
    hide Cast, Value;
    forall data: seq<real>, valid: seq<bool>, rows: seq<Row> | NumberColumn(t, col, data, valid, rows)
      ensures KernelRows(data, NumericTest(t, wild, numOp, x), valid) == Answers(w, p, rows)
    {
      forall i | 0 <= i < |rows| ensures KernelRows(data, NumericTest(t, wild, numOp, x), valid)[i] == Predicates.Holds(w, p, rows[i]) {
        assert Value(t, data[i]) && SameTest(t, wild, numOp, x, data[i]);
      }
    }
  }

  /** For each numeric column type: the numeric kernel's mask is the predicate's answer on every column and every
      machine exactly when the threshold's conversion is defined and moves it to the harmless side. */
  lemma NumericMaskIff(w: World, col: int, ctype: ColumnType, op: OpType, threshold: nat, single: real -> real)
    requires IsNumeric(ctype) && Rounding(single)
    ensures var t, numOp, x := Columns.NumberType(ctype, single), NumOpOf(op), w.number(threshold);
            CastExact(t, numOp, x) <==>
            forall wild: real -> real | Wild(t, wild) :: KernelAnswers(w, Numeric(col, ctype, op, threshold), t, col, NumericTest(t, wild, numOp, x))
  {
    var p, t, numOp, x := Numeric(col, ctype, op, threshold), Columns.NumberType(ctype, single), NumOpOf(op), w.number(threshold);
    Columns.NumberTypeSane(ctype, single);
    CastExactIff(t, numOp, x);
    hide Columns.NumberType, Cast, Value, CastExact;
    if CastExact(t, numOp, x) {
      forall wild: real -> real | Wild(t, wild) ensures KernelAnswers(w, p, t, col, NumericTest(t, wild, numOp, x)) {
        NumericAnswers(w, col, ctype, op, threshold, t, wild);
      }
    } else {
      var wild: real -> real, v: real :| Wild(t, wild) && Value(t, v) && !SameTest(t, wild, numOp, x, v);
      var row := OneRow(t, col, v);
      assert KernelRows([v], NumericTest(t, wild, numOp, x), [true])[0] != Answers(w, p, [row])[0];
      assert !KernelAnswers(w, p, t, col, NumericTest(t, wild, numOp, x));
    }
  }

  lemma RangeAnswers(w: World, col: int, ctype: ColumnType, op: OpType, lower: nat, upper: nat, t: NumType, wild: real -> real)
    requires forall v: real | Value(t, v) :: SameRange(t, wild, op == 8, w.number(lower), w.number(upper), v)
    ensures KernelAnswers(w, Range(col, ctype, op, lower, upper), t, col, RangeTest(t, wild, op == 8, w.number(lower), w.number(upper)))
  {
    var p, lo, hi := Range(col, ctype, op, lower, upper), w.number(lower), w.number(upper);
    var test := RangeTest(t, wild, op == 8, lo, hi);
    hide Cast, Value;
    forall data: seq<real>, valid: seq<bool>, rows: seq<Row> | NumberColumn(t, col, data, valid, rows)
      ensures KernelRows(data, test, valid) == Answers(w, p, rows)
    {
      forall i | 0 <= i < |rows| ensures KernelRows(data, test, valid)[i] == Predicates.Holds(w, p, rows[i]) {
        assert Value(t, data[i]) && SameRange(t, wild, op == 8, lo, hi, data[i]);
      }
    }
  }

  /** The same for the range kernels. */
  lemma RangeMaskIff(w: World, col: int, ctype: ColumnType, op: OpType, lower: nat, upper: nat, single: real -> real)
    requires IsNumeric(ctype) && Rounding(single)
    ensures var t, lo, hi := Columns.NumberType(ctype, single), w.number(lower), w.number(upper);
            RangeCastExact(t, op == 8, lo, hi) <==>
            forall wild: real -> real | Wild(t, wild) :: KernelAnswers(w, Range(col, ctype, op, lower, upper), t, col, RangeTest(t, wild, op == 8, lo, hi))
  {
    var p, t, lo, hi := Range(col, ctype, op, lower, upper), Columns.NumberType(ctype, single), w.number(lower), w.number(upper);
    Columns.NumberTypeSane(ctype, single);
    RangeCastExactIff(t, op == 8, lo, hi);
    hide Columns.NumberType, Cast, Value, RangeCastExact;
    if RangeCastExact(t, op == 8, lo, hi) {
      forall wild: real -> real | Wild(t, wild) ensures KernelAnswers(w, p, t, col, RangeTest(t, wild, op == 8, lo, hi)) {
        RangeAnswers(w, col, ctype, op, lower, upper, t, wild);
      }
    } else {
      var wild: real -> real, v: real :| Wild(t, wild) && Value(t, v) && !SameRange(t, wild, op == 8, lo, hi, v);
      var row := OneRow(t, col, v);
      assert KernelRows([v], RangeTest(t, wild, op == 8, lo, hi), [true])[0] != Answers(w, p, [row])[0];
      assert !KernelAnswers(w, p, t, col, RangeTest(t, wild, op == 8, lo, hi));
    }
  }

  // ---- Dictionary columns ------------------------------------------------------------------------------------

  function Listed(values: Textual): seq<string> {
    match values
    case One(s) => [s]
    case Many(vs) => vs
  }

  /** What a categorical operator says about a row's string and the listed ones. */
  predicate TextTest(op: OpType, listed: seq<string>, v: string) {
    if op == CONTAINS_ALL then |listed| <= 1 && v in listed
    else if op in {NOT_IN, NEQ, NOT_INTERSECTS} then v !in listed
    else if op == EQ then listed != [] && v == listed[0]
    else v in listed
  }

  /** The dictionary kernels on one row's id. */
  function CodeTest(op: OpType, ids: seq<int>): int -> bool {
    code => CategoricalHolds(Id(code), op, ids)
  }

  /** Ids that the dictionary knows are as good as strings, whatever else is listed. */
  lemma CodeIsText(d: D.Dict, op: OpType, listed: seq<string>, v: string)
    requires d.Inverse() && v in d.ids
    ensures CodeTest(op, D.ListedIds(d, listed))(d.IdOf(v)) == TextTest(op, listed, v)
  {
    var ids := D.ListedIds(d, listed);
    D.InExactIff(d, v, listed);
    if listed != [] && ids[0] == d.IdOf(v) {
      assert listed[0] in d.ids;
      assert listed[0] == d.names[d.IdOf(v)] == v;
    }
  }

  /** The predicate's answer on an encoded row is the test on strings. */
  lemma CategoricalIsText(w: World, d: D.Dict, col: int, op: OpType, values: Textual, v: string, row: Row)
    requires d.Inverse() && v in d.ids && row(col) == Id(d.IdOf(v))
    requires forall s: string :: w.idOf(col, s) == d.IdOf(s)
    ensures Predicates.Holds(w, Categorical(col, op, values), row) == TextTest(op, Listed(values), v)
  {
    assert Ids(w, col, values) == D.ListedIds(d, Listed(values));
    CodeIsText(d, op, Listed(values), v);
  }

  /** `resolve_textual_values`. */
  method ResolveValues(e: D.Encoder, c: nat, values: Textual) returns (ids: seq<int>)
    requires e.Valid() && c < |e.fields|
    ensures ids == D.ListedIds(e.Column(c), Listed(values))
  {
    var listed := Listed(values);
    ids := [];
    for i := 0 to |listed|
      invariant ids == D.ListedIds(e.Column(c), listed[..i])
    {
      var id := e.Resolve(c, listed[i]);
      ids := ids + [id];
    }
    assert listed[..|listed|] == listed;
  }

  /** The rows whose string passes the test. */
  function TextRows(column: seq<Option<string>>, op: OpType, listed: seq<string>): (rows: seq<bool>)
    ensures |rows| == |column|
  {
    seq(|column|, i requires 0 <= i < |column| => column[i].Some? && TextTest(op, listed, column[i].value))
  }

  function Present(column: seq<Option<string>>): (valid: seq<bool>)
    ensures |valid| == |column|
  {
    seq(|column|, i requires 0 <= i < |column| => column[i].Some?)
  }

  /** The values buffer of the encoded column; what it holds under a null does not matter. */
  function Codes(ids: seq<Option<int>>): (codes: seq<int>)
    ensures |codes| == |ids|
  {
    seq(|ids|, i requires 0 <= i < |ids| => if ids[i].Some? then ids[i].value else 0)
  }

  /** While the dictionary has room, every string of the column got an id. */
  lemma AllKnown(f: D.Field, d: D.Dict, column: seq<Option<string>>, i: nat)
    requires d.Inverse() && !f.Full(|D.AddAll(f, d, D.Present(column)).ids|)
    requires i < |column| && column[i].Some?
    ensures column[i].value in D.AddAll(f, d, D.Present(column)).ids
  {
    D.PresentHas(column, i);
    var vs := D.Present(column);
    var k :| 0 <= k < |vs| && vs[k] == column[i].value;
    D.EncodeThenResolve(f, d, vs, [], k);
  }

  /** The kernel's rows on the encoded column are the test on its strings. */
  lemma EncodedRows(f: D.Field, d: D.Dict, column: seq<Option<string>>, ids: seq<Option<int>>, op: OpType, listed: seq<string>)
    requires d.Inverse() && |ids| == |column|
    requires var after := D.AddAll(f, d, D.Present(column)); !f.Full(|after.ids|) && D.Encoded(ids, column, after)
    ensures var after := D.AddAll(f, d, D.Present(column));
            KernelRows(Codes(ids), CodeTest(op, D.ListedIds(after, listed)), Present(column)) == TextRows(column, op, listed)
  {
    var after := D.AddAll(f, d, D.Present(column));
    D.AddAllKeeps(f, d, D.Present(column));
    forall i | 0 <= i < |column| && column[i].Some?
      ensures CodeTest(op, D.ListedIds(after, listed))(Codes(ids)[i]) == TextTest(op, listed, column[i].value)
    {
      AllKnown(f, d, column, i);
      CodeIsText(after, op, listed, column[i].value);
    }
  }

  /** One batch, in the engine's order: encode the column, resolve the listed values, run the kernel.  As
      long as the dictionary did not fill up, the mask is the test on strings, nulls excluded. */
  method EvalStrings(e: D.Encoder, c: nat, column: seq<Option<string>>, op: OpType, values: Textual,
                     validity: Option<seq<Byte>>, out: array<Byte>)
    requires e.Valid() && c < |e.fields|
    requires out.Length == Bytes(|column|) && Shows(validity, Present(column))
    modifies e`dicts, e`reverse, out
    ensures e.Valid()
    ensures !e.fields[c].Full(|e.Column(c).ids|) ==> Encodes(out[..], TextRows(column, op, Listed(values)))
  {
    ghost var before := e.Column(c);
    var encoded := e.EncodeStrings(c, column);
    var ids := ResolveValues(e, c, values);
    EvalKernel(Codes(encoded), CodeTest(op, ids), validity, Present(column), out);
    if !e.fields[c].Full(|e.Column(c).ids|) {
      EncodedRows(e.fields[c], before, column, encoded, op, Listed(values));
    }
  }

  // ---- Columns of closed values --------------------------------------------------------------------------------

  /** What a categorical operator says about a row's set of strings: closed values only, and for CONTAINS_ALL
      every listed value that the dictionary gives an id below 63. */
  ghost predicate SetTest(op: OpType, d: D.Dict, closed: seq<string>, listed: seq<string>, row: seq<string>) {
    if op == CONTAINS_ALL then forall v | v in listed && 0 <= d.IdOf(v) < C.WIDTH :: v in closed && v in row
    else if op in {NOT_IN, NEQ, NOT_INTERSECTS} then forall v | v in closed && v in listed :: v !in row
    else exists v :: v in closed && v in listed && v in row
  }

  /** The row's cell for a set of strings, and the column's dictionary as the rules see it. */
  ghost predicate LabelRow(w: World, d: D.Dict, closed: seq<string>, col: int, labels: seq<string>, row: Row) {
    row(col) == Labels(C.BitsOf(C.RowPositions(closed, labels))) && forall s: string :: w.idOf(col, s) == d.IdOf(s)
  }

  /** With fewer than 63 distinct closed values, and whatever was preloaded or encoded since, the predicate's answer
      on the bit sets is the test on sets. */
  lemma CategoricalIsSet(w: World, d: D.Dict, f: D.Field, closed: seq<string>, col: int, op: OpType, values: Textual,
                         labels: seq<string>, row: Row)
    requires C.Started(d, f, closed) && LabelRow(w, d, closed, col, labels, row)
    ensures Predicates.Holds(w, Categorical(col, op, values), row) == SetTest(op, d, closed, Listed(values), labels)
  {
    assert Ids(w, col, values) == D.ListedIds(d, Listed(values));
    C.BitsetExact(d, f, closed, labels, Listed(values));
  }

  lemma ContainsAllAnswers(w: World, d: D.Dict, closed: seq<string>, col: int, values: Textual, labels: seq<string>, row: Row)
    requires LabelRow(w, d, closed, col, labels, row)
    ensures Predicates.Holds(w, Categorical(col, CONTAINS_ALL, values), row) == C.AllAnswers(d, closed, labels, Listed(values))
  {
    assert Ids(w, col, values) == D.ListedIds(d, Listed(values));
  }

  lemma RowOfLabels(w: World, d: D.Dict, closed: seq<string>, col: int, labels: seq<string>) returns (row: Row)
    requires forall s: string :: w.idOf(col, s) == d.IdOf(s)
    ensures LabelRow(w, d, closed, col, labels, row)
  {
    row := _ => Labels(C.BitsOf(C.RowPositions(closed, labels)));
  }

  /** CONTAINS_ALL asks for the closed listed values on every row exactly when no other listed value has an id
      below 63. */
  lemma ContainsAllIff(w: World, d: D.Dict, f: D.Field, closed: seq<string>, col: int, values: Textual)
    requires C.Started(d, f, closed) && forall s: string :: w.idOf(col, s) == d.IdOf(s)
    ensures !C.Foreign(d, closed, Listed(values)) <==>
            forall labels: seq<string>, row: Row | LabelRow(w, d, closed, col, labels, row) ::
              Predicates.Holds(w, Categorical(col, CONTAINS_ALL, values), row) == C.HoldsClosed(closed, labels, Listed(values))
  {
    hide *;
    C.AllClosedIff(d, f, closed, Listed(values));
    if C.Foreign(d, closed, Listed(values)) {
      var labels: seq<string> :| C.AllAnswers(d, closed, labels, Listed(values)) != C.HoldsClosed(closed, labels, Listed(values));
      var row := RowOfLabels(w, d, closed, col, labels);
      ContainsAllAnswers(w, d, closed, col, values, labels, row);
    } else {
      forall labels: seq<string>, row: Row | LabelRow(w, d, closed, col, labels, row)
        ensures Predicates.Holds(w, Categorical(col, CONTAINS_ALL, values), row) == C.HoldsClosed(closed, labels, Listed(values))
      {
        ContainsAllAnswers(w, d, closed, col, values, labels, row);
      }
    }
  }
}
