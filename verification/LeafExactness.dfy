/** When the mask of a leaf is the predicate's answer on every row: for each kind of predicate the exact condition,
    which can be read off the predicate and the schema. */
module LeafExactness {
  import opened Bits
  import opened ByteMask
  import opened Casts
  import opened LeafKernels
  import opened Optional
  import opened Predicates
  import opened Columns
  import opened LeafMasks
  import opened LeafEval
  import Comparisons
  import Ipv4Text

  /** Both columns hold dictionary ids. */
  predicate BothCodes(schema: seq<Field>, p: Predicate)
    requires p.CrossField? && Accepted(schema, p)
  {
    forall col | col in {p.col, p.right} :: schema[col].ctype == ENTITY_KEY || (schema[col].ctype == CATEGORICAL && !schema[col].words)
  }

  predicate BothWords(schema: seq<Field>, p: Predicate)
    requires p.CrossField? && Accepted(schema, p)
  {
    forall col | col in {p.col, p.right} :: schema[col].ctype == CATEGORICAL && schema[col].words
  }

  /** Thresholds that their conversion leaves harmless, and kernels that read the buffers as what they are.  Two
      columns of words are only compared rightly in the morsel at r0 == 0, or with themselves. */
  predicate LeafExact(schema: seq<Field>, w: World, p: Predicate, r0: nat)
    requires Accepted(schema, p)
  {
    match p
    case Numeric(_, ctype, op, threshold) => CastExact(NumberType(ctype, w.single), NumOpOf(op), w.number(threshold))
    case Window(_, ctype, op, threshold) => CastExact(NumberType(ctype, w.single), NumOpOf(op), w.number(threshold))
    case Range(_, ctype, op, lower, upper) => RangeCastExact(NumberType(ctype, w.single), op == 8, w.number(lower), w.number(upper))
    case CrossField(col, right, _, _, _) =>
      ComparesCodes(p) ==> BothCodes(schema, p) || (BothWords(schema, p) && (r0 == 0 || col == right))
    case Bitfield(_, ctype, _, _) => IsInteger(ctype)
    case Temporal(col, _, _, _, _, _) => schema[col].ctype == 3 || schema[col].ctype == 6
    case Geo(lat, lon, otherLat, otherLon, _, _) =>
      schema[lat].ctype <= 1 && schema[lon].ctype <= 1 && schema[otherLat].ctype <= 1 && schema[otherLon].ctype <= 1
    case _ => true
  }

  /** On this morsel the mask is the predicate's answer on each row. */
  ghost predicate LeafRight(schema: seq<Field>, w: World, mc: Machine, p: Predicate, b: Batch, r0: nat, m: nat, zone: Option<Zone>)
    requires Ready(schema, w, p, b, r0, m)
  {
    LeafRows(schema, w, mc, p, b, r0, m, zone) == Answers(w, p, MorselRows(b, r0, m))
  }

  /** The zone, if there is one, is that of the predicate's column. */
  ghost predicate ZoneOfLeaf(p: Predicate, b: Batch, r0: nat, m: nat, zone: Option<Zone>) {
    match ZoneColumn(p)
    case None => true
    case Some(col) => ZoneFits(zone, b, col, r0, m)
  }

  // ---- Comparisons with thresholds ---------------------------------------------------------------------------------

  /** The rows of a column's stretch, as `LeafMasks` sees them. */
  lemma StretchIsColumn(t: NumType, b: Batch, col: int, r0: nat, m: nat)
    requires Has(b, col) && b.columns[col].values.Numbers? && r0 + m <= |b.columns[col].values.data|
    requires LeafKernels.Column(t, b.columns[col].values.data)
    ensures NumberColumn(t, col, b.columns[col].values.data[r0..r0 + m], ValidRows(b.columns[col], r0, m), MorselRows(b, r0, m))
  {
    hide Value, At;
    var c := b.columns[col];
    var data := c.values.data[r0..r0 + m];
    assert LeafKernels.Column(t, data) by {
      forall i | 0 <= i < m ensures Value(t, data[i]) { assert data[i] == c.values.data[r0 + i]; }
    }
  }

  lemma ShortcutIsKernel(w: World, p: Predicate, verdict: Verdict, data: seq<real>, test: real -> bool, valid: seq<bool>, answers: seq<bool>)
    requires |data| == |valid| && KernelRows(data, test, valid) == answers
    requires verdict != Unknown ==> VerdictRows(verdict, |data|) == KernelRows(data, test, AllValid(|data|)) && valid == AllValid(|data|)
    ensures ShortcutRows(verdict, data, test, valid) == answers
  {
  }

  lemma ComparisonExact(schema: seq<Field>, w: World, mc: Machine, p: Predicate, col: int, ctype: ColumnType, op: OpType, threshold: nat,
                        b: Batch, r0: nat, m: nat, zone: Option<Zone>)
    requires Ready(schema, w, p, b, r0, m) && Rounding(w.single) && Legal(mc, w.single)
    requires InSchema(schema, col) && schema[col].ctype == ctype && IsNumeric(ctype) && ZoneFits(zone, b, col, r0, m)
    requires CastExact(NumberType(ctype, w.single), NumOpOf(op), w.number(threshold))
    ensures Has(b, col) && b.columns[col].values.Numbers? && |b.columns[col].values.data| == b.n
    ensures ComparisonRows(w, mc, col, ctype, op, threshold, b, r0, m, zone)
         == Answers(w, Numeric(col, ctype, op, threshold), MorselRows(b, r0, m))
  {
    hide NumberType, CastExact, Cast, Value, ZoneNumeric, Answers, VerdictRows, KernelRows, NumOpOf, RowOf, ZoneOf;
    NumbersReady(schema, w, p, b, r0, m, col);
    var t, wild, numOp, x := NumberType(ctype, w.single), WildOf(mc, ctype), NumOpOf(op), w.number(threshold);
    var c := b.columns[col];
    var data, valid := c.values.data[r0..r0 + m], ValidRows(c, r0, m);
    NumberTypeSane(ctype, w.single);
    StretchIsColumn(t, b, col, r0, m);
    CastExactIff(t, numOp, x);
    assert Wild(t, wild);
    NumericAnswers(w, col, ctype, op, threshold, t, wild);
    var verdict := NumericDecision(w, op, threshold, zone);
    if verdict != Unknown {
      NumericVerdict(t, wild, numOp, x, data, zone.value);
      assert valid == AllValid(m);
    }
    ShortcutIsKernel(w, p, verdict, data, NumericTest(t, wild, numOp, x), valid, Answers(w, Numeric(col, ctype, op, threshold), MorselRows(b, r0, m)));
  }

  lemma RangeExact(schema: seq<Field>, w: World, mc: Machine, p: Predicate, b: Batch, r0: nat, m: nat, zone: Option<Zone>)
    requires Ready(schema, w, p, b, r0, m) && p.Range? && Rounding(w.single) && Legal(mc, w.single)
    requires ZoneFits(zone, b, p.col, r0, m) && LeafExact(schema, w, p, r0)
    ensures LeafRight(schema, w, mc, p, b, r0, m, zone)
  {
    hide NumberType, RangeCastExact, Cast, Value, ZoneRange, Answers, VerdictRows, KernelRows, RowOf, ZoneOf;
    NumbersReady(schema, w, p, b, r0, m, p.col);
    var t, wild, lo, hi := NumberType(p.ctype, w.single), WildOf(mc, p.ctype), w.number(p.lower), w.number(p.upper);
    var c := b.columns[p.col];
    var data, valid := c.values.data[r0..r0 + m], ValidRows(c, r0, m);
    NumberTypeSane(p.ctype, w.single);
    StretchIsColumn(t, b, p.col, r0, m);
    RangeCastExactIff(t, p.op == 8, lo, hi);
    assert Wild(t, wild);
    RangeAnswers(w, p.col, p.ctype, p.op, p.lower, p.upper, t, wild);
    var verdict := RangeDecision(w, p.op, p.lower, p.upper, zone);
    if verdict != Unknown {
      RangeVerdict(t, wild, p.op == 8, lo, hi, data, zone.value);
      assert valid == AllValid(m);
    }
    ShortcutIsKernel(w, p, verdict, data, RangeTest(t, wild, p.op == 8, lo, hi), valid, Answers(w, p, MorselRows(b, r0, m)));
  }

  // ---- The other kernels -------------------------------------------------------------------------------------------

  lemma CategoricalExact(schema: seq<Field>, w: World, mc: Machine, p: Predicate, b: Batch, r0: nat, m: nat, zone: Option<Zone>)
    requires Ready(schema, w, p, b, r0, m) && p.Categorical?
    ensures LeafRight(schema, w, mc, p, b, r0, m, zone)
  {
    hide CategoricalHolds, Ids, At;
    ColumnReady(schema, b, w.single, p.col);
  }

  lemma NullExact(schema: seq<Field>, w: World, mc: Machine, p: Predicate, b: Batch, r0: nat, m: nat, zone: Option<Zone>)
    requires Ready(schema, w, p, b, r0, m) && p.NullTest?
    ensures LeafRight(schema, w, mc, p, b, r0, m, zone)
  {
    hide At, RowOf, LeafRows;
    ColumnReady(schema, b, w.single, p.col);
    NullRowsSay(schema, w, mc, p, b, r0, m, zone);
    forall i: nat | i < m
      ensures LeafRows(schema, w, mc, p, b, r0, m, zone)[i] == Predicates.Holds(w, p, RowOf(b, r0 + i))
    {
      NullCell(b, p.col, r0 + i);
    }
  }

  lemma NullCell(b: Batch, col: int, i: nat)
    requires Has(b, col) && i < SizeOf(b.columns[col].values)
    ensures var cell, c := RowOf(b, i)(col), b.columns[col];
            (cell == Null <==> !ValidAt(c, i)) && (cell == Text("") <==> c.values.Strings? && ValidAt(c, i) && TextAt(c, i) == "")
  {
    hide At;
  }

  lemma NullRowsSay(schema: seq<Field>, w: World, mc: Machine, p: Predicate, b: Batch, r0: nat, m: nat, zone: Option<Zone>)
    requires Ready(schema, w, p, b, r0, m) && p.NullTest?
    ensures Has(b, p.col) && SizeOf(b.columns[p.col].values) == b.n
    ensures var c := b.columns[p.col];
            LeafRows(schema, w, mc, p, b, r0, m, zone)
              == if (p.op == IS_EMPTY || p.op == IS_NOT_EMPTY) && c.values.Strings? then EmptyRows(c, r0, m, p.op == IS_EMPTY)
                 else NullRows(ValidRows(c, r0, m), p.op == IS_NULL || p.op == IS_EMPTY)
  {
    hide At;
    ColumnReady(schema, b, w.single, p.col);
  }

  /** A kernel that goes row by row writes its test's answers. */
  lemma RowsExact(schema: seq<Field>, w: World, mc: Machine, p: Predicate, b: Batch, r0: nat, m: nat, zone: Option<Zone>)
    requires Ready(schema, w, p, b, r0, m) && ZoneColumn(p) == None && !p.Categorical? && !p.NullTest?
    requires forall i: nat | i < m :: RowTest(w, mc, p, b, r0, i) == Predicates.Holds(w, p, RowOf(b, r0 + i))
    ensures LeafRight(schema, w, mc, p, b, r0, m, zone)
  {
    hide RowTest, Predicates.Holds, RowOf;
  }

  lemma CrossExact(schema: seq<Field>, w: World, mc: Machine, p: Predicate, b: Batch, r0: nat, m: nat, i: nat)
    requires Ready(schema, w, p, b, r0, m) && p.CrossField? && LeafExact(schema, w, p, r0) && i < m
    ensures RowTest(w, mc, p, b, r0, i) == Predicates.Holds(w, p, RowOf(b, r0 + i))
  {
    hide At, FieldCompare;
    ColumnReady(schema, b, w.single, p.col);
    ColumnReady(schema, b, w.single, p.right);
  }

  lemma RowExact(schema: seq<Field>, w: World, mc: Machine, p: Predicate, b: Batch, r0: nat, m: nat, i: nat)
    requires Ready(schema, w, p, b, r0, m) && LeafExact(schema, w, p, r0) && i < m
    requires p.Bitfield? || p.Cidr? || p.Regex? || p.Lookup? || p.Temporal?
    ensures RowTest(w, mc, p, b, r0, i) == Predicates.Holds(w, p, RowOf(b, r0 + i))
  {
    hide At, And, Ipv4Text.AddressOf;
    ColumnReady(schema, b, w.single, p.col);
  }

  lemma GeoExact(schema: seq<Field>, w: World, mc: Machine, p: Predicate, b: Batch, r0: nat, m: nat, i: nat)
    requires Ready(schema, w, p, b, r0, m) && LeafExact(schema, w, p, r0) && i < m && p.Geo?
    ensures RowTest(w, mc, p, b, r0, i) == Predicates.Holds(w, p, RowOf(b, r0 + i))
  {
    hide At;
    ColumnReady(schema, b, w.single, p.col);
    ColumnReady(schema, b, w.single, p.lon);
    ColumnReady(schema, b, w.single, p.otherLat);
    ColumnReady(schema, b, w.single, p.otherLon);
  }

  /** Under its condition a leaf's mask is the predicate's answer, on every batch, morsel and machine, with a zone or
      without. */
  lemma LeafHolds(schema: seq<Field>, w: World, mc: Machine, p: Predicate, b: Batch, r0: nat, m: nat, zone: Option<Zone>)
    requires Ready(schema, w, p, b, r0, m) && Rounding(w.single) && Legal(mc, w.single)
    requires ZoneOfLeaf(p, b, r0, m, zone) && LeafExact(schema, w, p, r0)
    ensures LeafRight(schema, w, mc, p, b, r0, m, zone)
  {
    hide RowTest, LeafRows, Answers, Legal, ZoneFits;
    match p
    case Numeric(col, ctype, op, threshold) =>
      ComparisonExact(schema, w, mc, p, col, ctype, op, threshold, b, r0, m, zone);
      NumericRows(schema, w, mc, p, b, r0, m, zone);
    case Window(col, ctype, op, threshold) =>
      ComparisonExact(schema, w, mc, p, col, ctype, op, threshold, b, r0, m, zone);
      WindowRows(schema, w, mc, p, b, r0, m, zone);
    case Range(_, _, _, _, _) => RangeExact(schema, w, mc, p, b, r0, m, zone);
    case Categorical(_, _, _) => CategoricalExact(schema, w, mc, p, b, r0, m, zone);
    case NullTest(_, _) => NullExact(schema, w, mc, p, b, r0, m, zone);
    case CrossField(_, _, _, _, _) =>
      forall i: nat | i < m ensures RowTest(w, mc, p, b, r0, i) == Predicates.Holds(w, p, RowOf(b, r0 + i)) {
        CrossExact(schema, w, mc, p, b, r0, m, i);
      }
      RowsExact(schema, w, mc, p, b, r0, m, zone);
    case Geo(_, _, _, _, _, _) =>
      forall i: nat | i < m ensures RowTest(w, mc, p, b, r0, i) == Predicates.Holds(w, p, RowOf(b, r0 + i)) {
        GeoExact(schema, w, mc, p, b, r0, m, i);
      }
      RowsExact(schema, w, mc, p, b, r0, m, zone);
    case _ =>
      forall i: nat | i < m ensures RowTest(w, mc, p, b, r0, i) == Predicates.Holds(w, p, RowOf(b, r0 + i)) {
        if p.Str? || p.Arithmetic? || p.ArrayLen? {
          OtherExact(w, mc, p, b, r0, i);
        } else {
          RowExact(schema, w, mc, p, b, r0, m, i);
        }
      }
      RowsExact(schema, w, mc, p, b, r0, m, zone);
  }

  lemma OtherExact(w: World, mc: Machine, p: Predicate, b: Batch, r0: nat, i: nat)
    requires p.Str? || p.Arithmetic? || p.ArrayLen?
    ensures RowTest(w, mc, p, b, r0, i) == Predicates.Holds(w, p, RowOf(b, r0 + i))
  {
    hide RowOf, Known;
  }

  lemma NumericRows(schema: seq<Field>, w: World, mc: Machine, p: Predicate, b: Batch, r0: nat, m: nat, zone: Option<Zone>)
    requires Ready(schema, w, p, b, r0, m) && p.Numeric?
    ensures Has(b, p.col) && b.columns[p.col].values.Numbers? && |b.columns[p.col].values.data| == b.n
    ensures LeafRows(schema, w, mc, p, b, r0, m, zone) == ComparisonRows(w, mc, p.col, p.ctype, p.op, p.threshold, b, r0, m, zone)
  {
    hide ComparisonRows;
    NumbersReady(schema, w, p, b, r0, m, p.col);
  }

  lemma WindowRows(schema: seq<Field>, w: World, mc: Machine, p: Predicate, b: Batch, r0: nat, m: nat, zone: Option<Zone>)
    requires Ready(schema, w, p, b, r0, m) && p.Window?
    ensures Has(b, p.col) && b.columns[p.col].values.Numbers? && |b.columns[p.col].values.data| == b.n
    ensures LeafRows(schema, w, mc, p, b, r0, m, zone) == ComparisonRows(w, mc, p.col, p.ctype, p.op, p.threshold, b, r0, m, zone)
    ensures Answers(w, p, MorselRows(b, r0, m)) == Answers(w, Numeric(p.col, p.ctype, p.op, p.threshold), MorselRows(b, r0, m))
  {
    hide ComparisonRows, RowOf;
    NumbersReady(schema, w, p, b, r0, m, p.col);
  }

  // ---- Batches on which the other leaves go wrong ---------------------------------------------------------------------

  /** Some number of the type. */
  function Zero(ctype: ColumnType, single: real -> real): real {
    if ctype == 0 then single(0.0) else 0.0
  }

  lemma ZeroIsValue(ctype: ColumnType, single: real -> real)
    requires Rounding(single) && IsNumeric(ctype)
    ensures Value(NumberType(ctype, single), Zero(ctype, single))
  {
  }

  function PlainValues(f: Field, n: nat, single: real -> real): (values: Values)
    ensures SizeOf(values) == n
  {
    if IsNumeric(f.ctype) then Numbers(seq(n, _ => Zero(f.ctype, single)))
    else if f.ctype == STRING then Strings(seq(n, _ => ""))
    else if f.ctype == BOOLEAN then Flags(seq(n, _ => false))
    else if f.ctype == CATEGORICAL && f.words then Words(seq(n, _ => 0))
    else Codes(seq(n, _ => 0))
  }

  /** A batch of the schema without nulls. */
  function Plain(schema: seq<Field>, n: nat, single: real -> real): (b: Batch)
    ensures b.n == n && |b.columns| == |schema|
  {
    Batch(n, seq(|schema|, c requires 0 <= c < |schema| => Column(schema[c].ctype, PlainValues(schema[c], n, single), None)))
  }

  lemma PlainFits(schema: seq<Field>, n: nat, single: real -> real)
    requires Rounding(single)
    ensures BatchFits(schema, Plain(schema, n, single), single)
  {
    forall c | 0 <= c < |schema| ensures ColumnFits(schema[c], Plain(schema, n, single).columns[c], n, single) {
      if IsNumeric(schema[c].ctype) { ZeroIsValue(schema[c].ctype, single); }
    }
  }

  function With(b: Batch, col: int, values: Values): Batch
    requires Has(b, col)
  {
    b.(columns := b.columns[col := b.columns[col].(values := values)])
  }

  lemma WithFits(schema: seq<Field>, b: Batch, single: real -> real, col: int, values: Values)
    requires BatchFits(schema, b, single) && InSchema(schema, col) && SizeOf(values) == b.n && ValuesFit(schema[col], values, single)
    ensures BatchFits(schema, With(b, col, values), single)
  {
    hide ValuesFit;
    var more := With(b, col, values);
    forall c | 0 <= c < |schema| ensures ColumnFits(schema[c], more.columns[c], b.n, single) {
      assert ColumnFits(schema[c], b.columns[c], b.n, single);
    }
  }

  /** A machine whose conversions to one type are `wild`, and whose stray reads give one bit. */
  function Odd(single: real -> real, ctype: ColumnType, wild: real -> real, bit: bool): Machine {
    Machine((t: ColumnType, x: real) => if t == ctype then wild(x) else Zero(t, single), (_, _) => bit)
  }

  lemma OddLegal(single: real -> real, ctype: ColumnType, wild: real -> real, bit: bool)
    requires Rounding(single) && IsNumeric(ctype) && Wild(NumberType(ctype, single), wild)
    ensures Legal(Odd(single, ctype, wild, bit), single)
  {
    hide NumberType, Value, Rounding;
    forall t: ColumnType, x: real | IsNumeric(t) ensures Value(NumberType(t, single), Odd(single, ctype, wild, bit).wild(t, x)) {
      ZeroIsValue(t, single);
    }
  }

  /** The conversions do not matter; stray reads give this bit. */
  lemma StrayMachine(single: real -> real, bit: bool) returns (mc: Machine)
    requires Rounding(single)
    ensures Legal(mc, single) && forall p: Predicate, i: nat :: mc.junk(p, i) == bit
  {
    hide NumberType, Value, Rounding;
    mc := Machine((t: ColumnType, _: real) => Zero(t, single), (_, _) => bit);
    forall t: ColumnType, x: real | IsNumeric(t) ensures Value(NumberType(t, single), mc.wild(t, x)) { ZeroIsValue(t, single); }
  }

  /** All rows hold the number that a comparison goes wrong on. */
  lemma NumberBatch(schema: seq<Field>, single: real -> real, col: int, r0: nat, v: real) returns (b: Batch)
    requires Rounding(single) && NumericField(schema, col) && Value(NumberType(schema[col].ctype, single), v)
    ensures BatchFits(schema, b, single) && b.n == r0 + 1 && Has(b, col)
    ensures b.columns[col] == Column(schema[col].ctype, Numbers(seq(r0 + 1, _ => v)), None)
  {
    hide NumberType, Value, Rounding;
    var plain := Plain(schema, r0 + 1, single);
    PlainFits(schema, r0 + 1, single);
    b := With(plain, col, Numbers(seq(r0 + 1, _ => v)));
    WithFits(schema, plain, single, col, Numbers(seq(r0 + 1, _ => v)));
  }

  lemma ComparisonFails(schema: seq<Field>, w: World, p: Predicate, r0: nat) returns (mc: Machine, b: Batch)
    requires Rounding(w.single) && Accepted(schema, p) && r0 % 8 == 0 && !LeafExact(schema, w, p, r0)
    requires p.Numeric? || p.Window?
    ensures Legal(mc, w.single) && Ready(schema, w, p, b, r0, 1) && !LeafRight(schema, w, mc, p, b, r0, 1, None)
  {
    hide NumberType, CastExact, Cast, Value, Rounding, NumOpOf;
    var t, numOp, x := NumberType(p.ctype, w.single), NumOpOf(p.op), w.number(p.threshold);
    NumberTypeSane(p.ctype, w.single);
    var wild, v := CastFails(t, numOp, x);
    mc := Odd(w.single, p.ctype, wild, false);
    OddLegal(w.single, p.ctype, wild, false);
    b := NumberBatch(schema, w.single, p.col, r0, v);
    assert Ready(schema, w, p, b, r0, 1);
    if p.Numeric? { NumericRows(schema, w, mc, p, b, r0, 1, None); } else { WindowRows(schema, w, mc, p, b, r0, 1, None); }
    OneComparison(w, mc, p.col, p.ctype, p.op, p.threshold, b, r0, v);
    CastSame(t, wild, WildOf(mc, p.ctype), x);
    assert Answers(w, p, MorselRows(b, r0, 1))[0] == Comparisons.Compare(numOp, v, x) by { assert RowOf(b, r0)(p.col) == Num(v); }
  }

  lemma OneComparison(w: World, mc: Machine, col: int, ctype: ColumnType, op: OpType, threshold: nat, b: Batch, r0: nat, v: real)
    requires IsNumeric(ctype) && Has(b, col) && b.columns[col] == Column(ctype, Numbers(seq(r0 + 1, _ => v)), None)
    ensures ComparisonRows(w, mc, col, ctype, op, threshold, b, r0, 1, None)
         == [NumericTest(NumberType(ctype, w.single), WildOf(mc, ctype), NumOpOf(op), w.number(threshold))(v)]
  {
    hide NumberType, Cast, NumOpOf;
    OneStretch(b.columns[col], r0, v);
  }

  lemma OneStretch(c: Column, r0: nat, v: real)
    requires c.values == Numbers(seq(r0 + 1, _ => v)) && c.validity.None?
    ensures c.values.data[r0..r0 + 1] == [v] && ValidRows(c, r0, 1) == [true]
  {
    assert c.values.data[r0] == v;
    assert ValidRows(c, r0, 1)[0] == ValidAt(c, r0);
  }

  lemma CastSame(t: NumType, a: real -> real, b: real -> real, x: real)
    requires a(x) == b(x)
    ensures Cast(t, a, x) == Cast(t, b, x)
  {
  }

  lemma RangeFails(schema: seq<Field>, w: World, p: Predicate, r0: nat) returns (mc: Machine, b: Batch)
    requires Rounding(w.single) && Accepted(schema, p) && r0 % 8 == 0 && !LeafExact(schema, w, p, r0) && p.Range?
    ensures Legal(mc, w.single) && Ready(schema, w, p, b, r0, 1) && !LeafRight(schema, w, mc, p, b, r0, 1, None)
  {
    hide NumberType, RangeCastExact, Cast, Value, Rounding;
    var t, lo, hi := NumberType(p.ctype, w.single), w.number(p.lower), w.number(p.upper);
    NumberTypeSane(p.ctype, w.single);
    RangeCastExactIff(t, p.op == 8, lo, hi);
    var wild: real -> real, v: real :| Wild(t, wild) && Value(t, v) && !SameRange(t, wild, p.op == 8, lo, hi, v);
    mc := Odd(w.single, p.ctype, wild, false);
    OddLegal(w.single, p.ctype, wild, false);
    b := NumberBatch(schema, w.single, p.col, r0, v);
    assert Ready(schema, w, p, b, r0, 1);
    NumbersReady(schema, w, p, b, r0, 1, p.col);
    CastSame(t, wild, WildOf(mc, p.ctype), lo);
    CastSame(t, wild, WildOf(mc, p.ctype), hi);
    OneStretch(b.columns[p.col], r0, v);
    OneRange(schema, w, mc, p, b, r0, v);
    assert Answers(w, p, MorselRows(b, r0, 1))[0] == InRange(p.op == 8, lo, hi, v) by { assert RowOf(b, r0)(p.col) == Num(v); }
  }

  lemma OneRange(schema: seq<Field>, w: World, mc: Machine, p: Predicate, b: Batch, r0: nat, v: real)
    requires Ready(schema, w, p, b, r0, 1) && p.Range? && Has(b, p.col)
    requires b.columns[p.col] == Column(p.ctype, Numbers(seq(r0 + 1, _ => v)), None)
    ensures LeafRows(schema, w, mc, p, b, r0, 1, None)
         == [RangeTest(NumberType(p.ctype, w.single), WildOf(mc, p.ctype), p.op == 8, w.number(p.lower), w.number(p.upper))(v)]
  {
    hide NumberType, Cast;
    OneStretch(b.columns[p.col], r0, v);
  }

  /** A stray read gives the bit that the predicate does not. */
  lemma StrayFails(schema: seq<Field>, w: World, p: Predicate, r0: nat) returns (mc: Machine, b: Batch)
    requires Rounding(w.single) && Accepted(schema, p) && r0 % 8 == 0 && !LeafExact(schema, w, p, r0)
    requires p.Bitfield? || p.Temporal? || p.Geo? || (p.CrossField? && !BothWords(schema, p))
    ensures Legal(mc, w.single) && Ready(schema, w, p, b, r0, 1) && !LeafRight(schema, w, mc, p, b, r0, 1, None)
  {
    hide NumberType, Value, Rounding, Plain, PlainValues;
    b := Plain(schema, r0 + 1, w.single);
    PlainFits(schema, r0 + 1, w.single);
    var holds := Predicates.Holds(w, p, RowOf(b, r0));
    mc := StrayMachine(w.single, !holds);
    StrayRow(schema, w, mc, p, b, r0);
    assert LeafRows(schema, w, mc, p, b, r0, 1, None)[0] == RowTest(w, mc, p, b, r0, 0);
    assert Answers(w, p, MorselRows(b, r0, 1))[0] == holds;
  }

  lemma StrayRow(schema: seq<Field>, w: World, mc: Machine, p: Predicate, b: Batch, r0: nat)
    requires Accepted(schema, p) && !LeafExact(schema, w, p, r0) && b == Plain(schema, r0 + 1, w.single)
    requires p.Bitfield? || p.Temporal? || p.Geo? || (p.CrossField? && !BothWords(schema, p))
    ensures RowTest(w, mc, p, b, r0, 0) == mc.junk(p, r0)
  {
    hide PlainValues;
    if p.CrossField? { StrayCross(schema, w.single, mc, p, b, r0); }
  }

  lemma StrayCross(schema: seq<Field>, single: real -> real, mc: Machine, p: Predicate, b: Batch, r0: nat)
    requires p.CrossField? && Accepted(schema, p) && ComparesCodes(p) && !BothCodes(schema, p) && !BothWords(schema, p)
    requires b == Plain(schema, r0 + 1, single)
    ensures Has(b, p.col) && Has(b, p.right) && CrossTest(mc, p, b, r0, 0) == mc.junk(p, r0)
  {
  }

  /** The left column holds a 1 in the word that is read, the right one nothing but zeros. */
  lemma WordsFail(schema: seq<Field>, w: World, p: Predicate, r0: nat) returns (mc: Machine, b: Batch)
    requires Rounding(w.single) && Accepted(schema, p) && r0 % 8 == 0 && !LeafExact(schema, w, p, r0)
    requires p.CrossField? && BothWords(schema, p)
    ensures Legal(mc, w.single) && Ready(schema, w, p, b, r0, 1) && !LeafRight(schema, w, mc, p, b, r0, 1, None)
  {
    hide NumberType, Value, Rounding;
    var plain := Plain(schema, r0 + 1, w.single);
    PlainFits(schema, r0 + 1, w.single);
    var words := seq(r0 + 1, i => if i == r0 / 2 then 1 else 0);
    b := With(plain, p.col, Words(words));
    WithFits(schema, plain, w.single, p.col, Words(words));
    mc := StrayMachine(w.single, false);
    assert b.columns[p.col] == Column(CATEGORICAL, Words(words), None);
    assert b.columns[p.right] == Column(CATEGORICAL, Words(seq(r0 + 1, _ => 0)), None);
    assert CrossTest(mc, p, b, r0, 0) == (p.op != EQ_FIELD);
    assert RowOf(b, r0)(p.col) == Labels(0) == RowOf(b, r0)(p.right);
    assert LeafRows(schema, w, mc, p, b, r0, 1, None)[0] == RowTest(w, mc, p, b, r0, 0);
    assert Answers(w, p, MorselRows(b, r0, 1))[0] == Predicates.Holds(w, p, RowOf(b, r0));
  }

  /** Exact on every batch of the schema, every size of the morsel at r0, every machine, with a zone or without. */
  ghost predicate AlwaysRight(schema: seq<Field>, w: World, p: Predicate, r0: nat) {
    forall mc: Machine, b: Batch, m: nat, zone: Option<Zone> |
      Ready(schema, w, p, b, r0, m) && Legal(mc, w.single) && ZoneOfLeaf(p, b, r0, m, zone) ::
      LeafRight(schema, w, mc, p, b, r0, m, zone)
  }

  /** For every predicate that the compiler accepts for a schema: its masks for the morsel at r0 are always its
      answers exactly when its condition holds. */
  lemma LeafExactIff(schema: seq<Field>, w: World, p: Predicate, r0: nat)
    requires Rounding(w.single) && Accepted(schema, p) && r0 % 8 == 0
    ensures LeafExact(schema, w, p, r0) <==> AlwaysRight(schema, w, p, r0)
  {
    hide Ready, Legal, ZoneOfLeaf, LeafRight, LeafExact, BothWords, Rounding;
    if LeafExact(schema, w, p, r0) {
      forall mc: Machine, b: Batch, m: nat, zone: Option<Zone> |
        Ready(schema, w, p, b, r0, m) && Legal(mc, w.single) && ZoneOfLeaf(p, b, r0, m, zone)
        ensures LeafRight(schema, w, mc, p, b, r0, m, zone)
      {
        LeafHolds(schema, w, mc, p, b, r0, m, zone);
      }
    } else {
      FailingKinds(schema, w, p, r0);
      var mc, b;
      if p.Numeric? || p.Window? {
        mc, b := ComparisonFails(schema, w, p, r0);
      } else if p.Range? {
        mc, b := RangeFails(schema, w, p, r0);
      } else if p.CrossField? && BothWords(schema, p) {
        mc, b := WordsFail(schema, w, p, r0);
      } else {
        mc, b := StrayFails(schema, w, p, r0);
      }
      NoZone(p, b, r0, 1);
      assert !LeafRight(schema, w, mc, p, b, r0, 1, None);
    }
  }

  lemma FailingKinds(schema: seq<Field>, w: World, p: Predicate, r0: nat)
    requires Accepted(schema, p) && !LeafExact(schema, w, p, r0)
    ensures p.Numeric? || p.Window? || p.Range? || p.CrossField? || p.Bitfield? || p.Temporal? || p.Geo?
  {
  }

  lemma NoZone(p: Predicate, b: Batch, r0: nat, m: nat)
    ensures ZoneOfLeaf(p, b, r0, m, None)
  {
  }

  /** Comparing two columns of words is right in the first morsel only. */
  lemma WordsComparedIff(schema: seq<Field>, w: World, p: Predicate, r0: nat)
    requires Rounding(w.single) && Accepted(schema, p) && r0 % 8 == 0
    requires p.CrossField? && ComparesCodes(p) && BothWords(schema, p) && p.col != p.right
    ensures AlwaysRight(schema, w, p, r0) <==> r0 == 0
  {
    hide AlwaysRight;
    LeafExactIff(schema, w, p, r0);
  }

  /** A comparison is right in every morsel, or in none, as its threshold survives the conversion. */
  lemma ThresholdIff(schema: seq<Field>, w: World, p: Predicate, r0: nat)
    requires Rounding(w.single) && Accepted(schema, p) && r0 % 8 == 0 && (p.Numeric? || p.Window?)
    ensures AlwaysRight(schema, w, p, r0) <==> CastExact(NumberType(p.ctype, w.single), NumOpOf(p.op), w.number(p.threshold))
  {
    hide AlwaysRight, CastExact;
    LeafExactIff(schema, w, p, r0);
  }

  /** At least 0.5, or more than 3000000000, asked of an INT32 column. */
  lemma ThresholdsGoWrong(schema: seq<Field>, w: World, col: int, half: nat, big: nat, r0: nat)
    requires Rounding(w.single) && InSchema(schema, col) && schema[col].ctype == 2 && r0 % 8 == 0
    requires w.number(half) == 0.5 && w.number(big) == 3000000000.0
    ensures !AlwaysRight(schema, w, Numeric(col, 2, GTE, half), r0)
    ensures !AlwaysRight(schema, w, Numeric(col, 2, GT, big), r0)
  {
    hide AlwaysRight;
    ThresholdIff(schema, w, Numeric(col, 2, GTE, half), r0);
    ThresholdIff(schema, w, Numeric(col, 2, GT, big), r0);
    assert (0.5).Floor == 0;
    assert Truncate(3000000000.0) == 3000000000;
  }

  /** The bit of a row, from its number: the six comparisons as they are written. */
  lemma ComparisonBits(schema: seq<Field>, w: World, mc: Machine, p: Predicate, b: Batch, r0: nat, m: nat, zone: Option<Zone>, i: nat)
    requires Ready(schema, w, p, b, r0, m) && Rounding(w.single) && Legal(mc, w.single) && p.Numeric? && i < m
    requires ZoneOfLeaf(p, b, r0, m, zone) && LeafExact(schema, w, p, r0)
    ensures Has(b, p.col) && b.columns[p.col].values.Numbers? && |b.columns[p.col].values.data| == b.n
    ensures var bit, c, v := LeafRows(schema, w, mc, p, b, r0, m, zone)[i], b.columns[p.col], w.number(p.threshold);
            && (!ValidAt(c, r0 + i) ==> !bit)
            && (ValidAt(c, r0 + i) ==>
                  && (p.op == 0 ==> (bit <==> c.values.data[r0 + i] > v))
                  && (p.op == 1 ==> (bit <==> c.values.data[r0 + i] < v))
                  && (p.op == 2 ==> (bit <==> c.values.data[r0 + i] >= v))
                  && (p.op == 3 ==> (bit <==> c.values.data[r0 + i] <= v))
                  && (p.op == 4 ==> (bit <==> c.values.data[r0 + i] == v))
                  && (p.op == 5 ==> (bit <==> c.values.data[r0 + i] != v)))
  {
    hide LeafRows, CastExact, NumberType, Legal, ZoneFits, Rounding, At;
    NumbersReady(schema, w, p, b, r0, m, p.col);
    LeafHolds(schema, w, mc, p, b, r0, m, zone);
    assert RowOf(b, r0 + i)(p.col) == if ValidAt(b.columns[p.col], r0 + i) then Num(b.columns[p.col].values.data[r0 + i]) else Null;
    assert LeafRows(schema, w, mc, p, b, r0, m, zone)[i] == Answers(w, p, MorselRows(b, r0, m))[i];
  }

  /** Without a verdict of the zone, and whatever the conversion makes of the threshold: the number it makes is compared. */
  lemma KernelBits(w: World, mc: Machine, col: int, ctype: ColumnType, op: OpType, threshold: nat, b: Batch, r0: nat, m: nat, i: nat)
    requires Has(b, col) && b.columns[col].values.Numbers? && r0 + m <= |b.columns[col].values.data| && IsNumeric(ctype) && i < m
    ensures var bit, x := ComparisonRows(w, mc, col, ctype, op, threshold, b, r0, m, None)[i], b.columns[col].values.data[r0 + i];
            var v := Cast(NumberType(ctype, w.single), WildOf(mc, ctype), w.number(threshold));
            && (!ValidAt(b.columns[col], r0 + i) ==> !bit)
            && (ValidAt(b.columns[col], r0 + i) ==>
                  && (op == 0 ==> (bit <==> x > v)) && (op == 1 ==> (bit <==> x < v))
                  && (op == 2 ==> (bit <==> x >= v)) && (op == 3 ==> (bit <==> x <= v))
                  && (op == 4 ==> (bit <==> x == v)) && (op == 5 ==> (bit <==> x != v)))
  {
    hide Cast, NumberType, At;
  }

  // ---- The conditions written out -----------------------------------------------------------------------------------

  predicate IsWhole(x: real) {
    x == x.Floor as real
  }

  /** Truncation towards zero, and where it stays in an integer type's range. */
  lemma WholeCast(min: int, max: int, x: real)
    requires min < 0 < max
    ensures Defined(Casts.Whole(min, max), x) <==> min as real - 1.0 < x < max as real + 1.0
    ensures Converted(Casts.Whole(min, max), x) <= x <==> x >= 0.0 || IsWhole(x)
    ensures Converted(Casts.Whole(min, max), x) >= x <==> x <= 0.0 || IsWhole(x)
    ensures Converted(Casts.Whole(min, max), x) == x <==> IsWhole(x)
  {
    Casts.TruncateBounds(x);
    var k := Casts.Truncate(x);
    Nearest(k, min, x);
    Nearest(k, max, x);
    hide Casts.Truncate;
    assert (k + 1) as real == k as real + 1.0 && (k - 1) as real == k as real - 1.0;
  }

  /** The truncated number against a bound of the type. */
  lemma Nearest(k: int, bound: int, x: real)
    requires x >= 0.0 ==> k as real <= x < (k + 1) as real
    requires x <= 0.0 ==> (k - 1) as real < x <= k as real
    ensures bound < 0 ==> (bound <= k <==> bound as real - 1.0 < x)
    ensures bound > 0 ==> (k <= bound <==> x < bound as real + 1.0)
  {
    assert (bound - 1) as real == bound as real - 1.0 && (bound + 1) as real == bound as real + 1.0;
    if bound <= k { assert (bound - 1) as real <= (k - 1) as real && bound as real <= k as real; }
    if k <= bound - 1 { assert k as real <= (bound - 1) as real && (k + 1) as real <= bound as real; }
    if k <= bound { assert (k + 1) as real <= (bound + 1) as real && k as real <= bound as real; }
    if k >= bound + 1 { assert (bound + 1) as real <= k as real && bound as real <= (k - 1) as real; }
  }

  /** A threshold on a column of doubles changes nothing; on floats the rounded one must lie on the right side; on
      integers the truncated one must, and be in range. */
  ghost predicate ThresholdFits(single: real -> real, ctype: ColumnType, op: OpType, v: real) {
    && (ctype == 0 && op in {0, 3} ==> single(v) <= v)
    && (ctype == 0 && op in {1, 2} ==> single(v) >= v)
    && (ctype == 0 && op in {4, 5} ==> single(v) == v)
    && (ctype == 2 ==> -2147483649.0 < v < 2147483648.0)
    && (ctype == 3 || ctype == 6 ==> -9223372036854775809.0 < v < 9223372036854775808.0)
    && (ctype in {2, 3, 6} && op in {0, 3} ==> v >= 0.0 || IsWhole(v))
    && (ctype in {2, 3, 6} && op in {1, 2} ==> v <= 0.0 || IsWhole(v))
    && (ctype in {2, 3, 6} && op in {4, 5} ==> IsWhole(v))
  }

  lemma ThresholdSays(schema: seq<Field>, w: World, col: int, ctype: ColumnType, op: OpType, threshold: nat, r0: nat)
    requires InSchema(schema, col) && schema[col].ctype == ctype && ctype in {0, 1, 2, 3, 6} && op <= 5
    ensures LeafExact(schema, w, Numeric(col, ctype, op, threshold), r0) <==> ThresholdFits(w.single, ctype, op, w.number(threshold))
    ensures LeafExact(schema, w, Window(col, ctype, op, threshold), r0) <==> ThresholdFits(w.single, ctype, op, w.number(threshold))
  {
    var v := w.number(threshold);
    WholeCast(-0x8000_0000, 0x7fff_ffff, v);
    WholeCast(-0x8000_0000_0000_0000, 0x7fff_ffff_ffff_ffff, v);
    hide Defined, Converted, IsWhole;
    FloatCast(w.single, v);
  }

  lemma FloatCast(single: real -> real, v: real)
    ensures Defined(Casts.Float(single), v) && Converted(Casts.Float(single), v) == single(v)
    ensures forall wide: real -> real {:trigger Casts.Float(wide)} :: wide(v) == v ==> Defined(Casts.Float(wide), v) && Converted(Casts.Float(wide), v) == v
  {
  }

  predicate HoldsIds(f: Field) {
    f.ctype == 5 || (f.ctype == 4 && !f.words)
  }

  predicate HoldsWords(f: Field) {
    f.ctype == 4 && f.words
  }

  /** Which columns the other kernels are right on. Two columns compared for equality must be numbers on one side at
      least, texts on both, ids on both, or words on both in the first morsel. */
  lemma KindsSay(schema: seq<Field>, w: World, p: Predicate, r0: nat)
    requires Accepted(schema, p)
    ensures p.Bitfield? ==> (LeafExact(schema, w, p, r0) <==> schema[p.col].ctype in {2, 3, 6})
    ensures p.Temporal? ==> (LeafExact(schema, w, p, r0) <==> schema[p.col].ctype in {3, 6})
    ensures p.Geo? ==> (LeafExact(schema, w, p, r0) <==>
              schema[p.col].ctype in {0, 1} && schema[p.lon].ctype in {0, 1} && schema[p.otherLat].ctype in {0, 1} && schema[p.otherLon].ctype in {0, 1})
    ensures p.CrossField? ==> (LeafExact(schema, w, p, r0) <==>
              || (p.op != 18 && p.op != 19) || p.ctype in {0, 1, 2, 3, 6} || p.rtype in {0, 1, 2, 3, 6} || (p.ctype == 8 && p.rtype == 8)
              || (HoldsIds(schema[p.col]) && HoldsIds(schema[p.right]))
              || (HoldsWords(schema[p.col]) && HoldsWords(schema[p.right]) && (r0 == 0 || p.col == p.right)))
    ensures p.Categorical? || p.NullTest? || p.Str? || p.Regex? || p.Lookup? || p.Cidr? || p.ArrayLen? || p.Arithmetic? ==> LeafExact(schema, w, p, r0)
  {
  }
}
