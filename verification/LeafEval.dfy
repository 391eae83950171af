/** `eval_predicate`: the mask of one pool entry on one morsel, computed from the columns' buffers, and when that
    mask is the predicate's answer on the rows. */
module LeafEval {
  import opened Bits
  import opened ByteMask
  import opened MaskKernels
  import opened Casts
  import opened LeafKernels
  import opened Optional
  import opened Predicates
  import opened Columns
  import opened LeafMasks
  import Comparisons
  import Ipv4Text

  /** What the code leaves to the machine: the value of an undefined conversion, and the bit of a kernel that reads
      a buffer of another type than it takes it for. */
  datatype Machine = Machine(wild: (ColumnType, real) -> real, junk: (Predicate, nat) -> bool)

  ghost predicate Legal(mc: Machine, single: real -> real) {
    forall t: ColumnType, x: real | IsNumeric(t) :: Value(NumberType(t, single), mc.wild(t, x))
  }

  function WildOf(mc: Machine, t: ColumnType): real -> real {
    x => mc.wild(t, x)
  }

  // ---- What the compiler accepts ----------------------------------------------------------------------------

  predicate InSchema(schema: seq<Field>, col: int) {
    0 <= col < |schema|
  }

  predicate NumericField(schema: seq<Field>, col: int) {
    InSchema(schema, col) && IsNumeric(schema[col].ctype)
  }

  /** `validate_condition`, on the operation that the condition becomes. */
  predicate Accepted(schema: seq<Field>, p: Predicate) {
    match p
    case Numeric(col, ctype, _, _) => InSchema(schema, col) && ctype == schema[col].ctype && IsNumeric(ctype)
    case Window(col, ctype, _, _) => InSchema(schema, col) && ctype == schema[col].ctype && IsNumeric(ctype)
    case Range(col, ctype, _, _, _) => InSchema(schema, col) && ctype == schema[col].ctype && IsNumeric(ctype)
    case Categorical(col, _, _) => InSchema(schema, col) && schema[col].ctype in {CATEGORICAL, ENTITY_KEY}
    case ArrayLen(col, _, _) => InSchema(schema, col) && schema[col].ctype in {CATEGORICAL, ENTITY_KEY, STRING}
    case NullTest(col, _) => InSchema(schema, col)
    case CrossField(col, right, ctype, rtype, _) =>
      InSchema(schema, col) && InSchema(schema, right) && ctype == schema[col].ctype && rtype == schema[right].ctype
    case Bitfield(col, ctype, _, _) => InSchema(schema, col) && ctype == schema[col].ctype && IsNumeric(ctype)
    case Str(col, _, _, _) => InSchema(schema, col) && schema[col].ctype == STRING
    case Regex(col, _, _) => InSchema(schema, col) && schema[col].ctype == STRING
    case Lookup(col, ctype, _, _, _, _) => InSchema(schema, col) && ctype == schema[col].ctype
    case Cidr(col, ctype, _, _, _) => InSchema(schema, col) && ctype == schema[col].ctype && ctype in {STRING, 2, 3}
    case Temporal(col, _, _, _, _, _) => NumericField(schema, col)
    case Geo(lat, lon, otherLat, otherLon, _, _) =>
      NumericField(schema, lat) && NumericField(schema, lon) && NumericField(schema, otherLat) && NumericField(schema, otherLon)
    case Arithmetic(_, _, _, _, _) => true
  }

  // ---- The kernels' row tests ----------------------------------------------------------------------------------

  /** `eval_categorical_bitset` on one word. */
  function WordTest(op: OpType, ids: seq<int>): nat -> bool {
    (word: nat) => CategoricalHolds(Labels(word), op, ids)
  }

  /** `value_at`. */
  function ValueAt(b: Batch, col: int, ctype: ColumnType, i: nat): real {
    if IsNumeric(ctype) && Has(b, col) && b.columns[col].values.Numbers? && i < |b.columns[col].values.data|
    then b.columns[col].values.data[i]
    else 0.0
  }

  function TextAt(c: Column, i: nat): string {
    if c.values.Strings? && i < |c.values.texts| then c.values.texts[i] else ""
  }

  /** `row_valid`. */
  predicate RowValid(b: Batch, col: int, i: nat) {
    Has(b, col) && ValidAt(b.columns[col], i)
  }

  /** The dictionary branch of `eval_cross_field`. */
  predicate ComparesCodes(p: Predicate) {
    && p.CrossField? && (p.op == EQ_FIELD || p.op == NEQ_FIELD)
    && !IsNumeric(p.ctype) && !IsNumeric(p.rtype) && !(p.ctype == STRING && p.rtype == STRING)
  }

  /** The comparison of `eval_cross_field`.  Two columns of words are read with the dictionary ids' stride of four
      bytes from row r0 on, which is word r0 / 2. */
  predicate CrossTest(mc: Machine, p: Predicate, b: Batch, r0: nat, i: nat)
    requires p.CrossField? && Has(b, p.col) && Has(b, p.right)
  {
    var l, r := b.columns[p.col].values, b.columns[p.right].values;
    if !ComparesCodes(p) && p.ctype == STRING && p.rtype == STRING && (p.op == EQ_FIELD || p.op == NEQ_FIELD) then
      (TextAt(b.columns[p.col], r0 + i) == TextAt(b.columns[p.right], r0 + i)) == (p.op == EQ_FIELD)
    else if ComparesCodes(p) then
      if l.Words? && r.Words? && r0 / 2 + i < |l.words| && r0 / 2 + i < |r.words| then
        (l.words[r0 / 2 + i] == r.words[r0 / 2 + i]) == (p.op == EQ_FIELD)
      else if l.Codes? && r.Codes? && r0 + i < |l.ids| && r0 + i < |r.ids| then
        (l.ids[r0 + i] == r.ids[r0 + i]) == (p.op == EQ_FIELD)
      else
        mc.junk(p, r0 + i)
    else FieldCompare(p.op, ValueAt(b, p.col, p.ctype, r0 + i), ValueAt(b, p.right, p.rtype, r0 + i))
  }

  predicate FlagTest(op: OpType, word: nat, mask: nat) {
    var common := And(word, mask);
    if op == FLAGS_ALL then common == mask else if op == FLAGS_NONE then common == 0 else common != 0
  }

  /** The test of the kernels that go row by row and set bits. */
  predicate RowTest(w: World, mc: Machine, p: Predicate, b: Batch, r0: nat, i: nat) {
    match p
    case CrossField(col, right, _, _, _) =>
      RowValid(b, col, r0 + i) && RowValid(b, right, r0 + i) && CrossTest(mc, p, b, r0, i)
    case Bitfield(col, ctype, op, mask) =>
      && RowValid(b, col, r0 + i)
      && if IsInteger(ctype) then FlagTest(op, Unsigned(ValueAt(b, col, ctype, r0 + i).Floor, 64), mask)
         else mc.junk(p, r0 + i)
    case Cidr(col, ctype, op, network, mask) =>
      && RowValid(b, col, r0 + i)
      && var ip := if ctype == STRING then Ipv4Text.AddressOf(TextAt(b.columns[col], r0 + i))
                   else Unsigned(ValueAt(b, col, ctype, r0 + i).Floor, 32);
         (And(ip, mask) == network) != (op == IP_NOT_IN_SUBNET)
    case Regex(col, op, pattern) =>
      RowValid(b, col, r0 + i) && w.regexMatch(pattern, TextAt(b.columns[col], r0 + i)) != (op == NOT_REGEX)
    case Lookup(col, _, op, name, _, _) =>
      RowValid(b, col, r0 + i) && w.inLookup(name, CellOf(b.columns[col], r0 + i)) != (op == NOT_IN_LOOKUP)
    case Temporal(col, _, _, _, _, _) =>
      && RowValid(b, col, r0 + i)
      && if b.columns[col].ctype in {3, 6} then w.other(p, RowOf(b, r0 + i)) else mc.junk(p, r0 + i)
    case Geo(lat, lon, otherLat, otherLon, _, _) =>
      && RowValid(b, lat, r0 + i) && RowValid(b, lon, r0 + i) && RowValid(b, otherLat, r0 + i) && RowValid(b, otherLon, r0 + i)
      && if b.columns[lat].ctype <= 1 && b.columns[lon].ctype <= 1 && b.columns[otherLat].ctype <= 1 && b.columns[otherLon].ctype <= 1
         then w.other(p, RowOf(b, r0 + i)) else mc.junk(p, r0 + i)
    case _ => Known(p, RowOf(b, r0 + i)) && w.other(p, RowOf(b, r0 + i))
  }

  // ---- The mask of a leaf ------------------------------------------------------------------------------------------

  /** The morsel [r0, r0 + m) of a batch of the schema, and a predicate that the compiler accepted for it. */
  ghost predicate Ready(schema: seq<Field>, w: World, p: Predicate, b: Batch, r0: nat, m: nat) {
    Accepted(schema, p) && BatchFits(schema, b, w.single) && r0 % 8 == 0 && r0 + m <= b.n
  }

  /** The column whose zone a predicate may use. */
  function ZoneColumn(p: Predicate): Option<int> {
    match p
    case Numeric(col, _, _, _) => Some(col)
    case Range(col, _, _, _, _) => Some(col)
    case Window(col, _, _, _) => Some(col)
    case _ => None
  }

  /** A zone is only made for a column without nulls, and holds its least and greatest value in the morsel. */
  ghost predicate ZoneFits(zone: Option<Zone>, b: Batch, col: int, r0: nat, m: nat) {
    zone.Some? ==>
      && Has(b, col) && b.columns[col].values.Numbers? && r0 + m <= |b.columns[col].values.data|
      && ZoneOf(zone.value, b.columns[col].values.data[r0..r0 + m])
      && forall i | r0 <= i < r0 + m :: ValidAt(b.columns[col], i)
  }

  /** The shortcut's mask when the zone decides, and the kernel's otherwise. */
  function ShortcutRows(verdict: Verdict, data: seq<real>, test: real -> bool, valid: seq<bool>): (rows: seq<bool>)
    requires |valid| == |data|
    ensures |rows| == |data|
  {
    if verdict != Unknown then VerdictRows(verdict, |data|) else KernelRows(data, test, valid)
  }

  /** The zone's decision on a comparison; an operator outside the six is not decided. */
  function NumericDecision(w: World, op: OpType, threshold: nat, zone: Option<Zone>): Verdict {
    if zone.Some? && op <= 5 then ZoneNumeric(NumOpOf(op), w.number(threshold), zone.value) else Unknown
  }

  function RangeDecision(w: World, op: OpType, lower: nat, upper: nat, zone: Option<Zone>): Verdict {
    if zone.Some? then ZoneRange(op == 8, w.number(lower), w.number(upper), zone.value) else Unknown
  }

  function ComparisonRows(w: World, mc: Machine, col: int, ctype: ColumnType, op: OpType, threshold: nat,
                          b: Batch, r0: nat, m: nat, zone: Option<Zone>): (rows: seq<bool>)
    requires Has(b, col) && b.columns[col].values.Numbers? && r0 + m <= |b.columns[col].values.data| && IsNumeric(ctype)
    ensures |rows| == m
  {
    ShortcutRows(NumericDecision(w, op, threshold, zone), b.columns[col].values.data[r0..r0 + m],
                 NumericTest(NumberType(ctype, w.single), WildOf(mc, ctype), NumOpOf(op), w.number(threshold)),
                 ValidRows(b.columns[col], r0, m))
  }

  function EmptyRows(c: Column, r0: nat, m: nat, isEmpty: bool): (rows: seq<bool>)
    ensures |rows| == m
  {
    seq(m, i requires 0 <= i < m =>
      if isEmpty then (ValidAt(c, r0 + i) && TextAt(c, r0 + i) == "") || !ValidAt(c, r0 + i)
      else ValidAt(c, r0 + i) && TextAt(c, r0 + i) != "")
  }

  /** The mask that `eval_predicate` writes. */
  function LeafRows(ghost schema: seq<Field>, w: World, mc: Machine, p: Predicate, b: Batch, r0: nat, m: nat, zone: Option<Zone>): (rows: seq<bool>)
    requires Ready(schema, w, p, b, r0, m)
    ensures |rows| == m
  {
    match p
    case Numeric(col, ctype, op, threshold) =>
      NumbersReady(schema, w, p, b, r0, m, col);
      ComparisonRows(w, mc, col, ctype, op, threshold, b, r0, m, zone)
    case Window(col, ctype, op, threshold) =>
      NumbersReady(schema, w, p, b, r0, m, col);
      ComparisonRows(w, mc, col, ctype, op, threshold, b, r0, m, zone)
    case Range(col, ctype, op, lower, upper) =>
      NumbersReady(schema, w, p, b, r0, m, col);
      ShortcutRows(RangeDecision(w, op, lower, upper, zone), b.columns[col].values.data[r0..r0 + m],
                   RangeTest(NumberType(ctype, w.single), WildOf(mc, ctype), op == 8, w.number(lower), w.number(upper)),
                   ValidRows(b.columns[col], r0, m))
    case Categorical(col, op, values) =>
      ColumnReady(schema, b, w.single, col);
      var c := b.columns[col];
      if c.values.Words? then KernelRows(c.values.words[r0..r0 + m], WordTest(op, Ids(w, col, values)), ValidRows(c, r0, m))
      else KernelRows(c.values.ids[r0..r0 + m], CodeTest(op, Ids(w, col, values)), ValidRows(c, r0, m))
    case NullTest(col, op) =>
      ColumnReady(schema, b, w.single, col);
      if (op == IS_EMPTY || op == IS_NOT_EMPTY) && b.columns[col].values.Strings? then EmptyRows(b.columns[col], r0, m, op == IS_EMPTY)
      else NullRows(ValidRows(b.columns[col], r0, m), op == IS_NULL || op == IS_EMPTY)
    case _ => seq(m, i requires 0 <= i < m => RowTest(w, mc, p, b, r0, i))
  }

  lemma ColumnReady(schema: seq<Field>, b: Batch, single: real -> real, col: int)
    requires BatchFits(schema, b, single) && InSchema(schema, col)
    ensures Has(b, col) && ColumnFits(schema[col], b.columns[col], b.n, single)
  {
  }

  lemma NumbersReady(schema: seq<Field>, w: World, p: Predicate, b: Batch, r0: nat, m: nat, col: int)
    requires Ready(schema, w, p, b, r0, m) && InSchema(schema, col) && IsNumeric(schema[col].ctype)
    ensures Has(b, col) && b.columns[col].values.Numbers? && |b.columns[col].values.data| == b.n
    ensures LeafKernels.Column(NumberType(schema[col].ctype, w.single), b.columns[col].values.data)
  {
    ColumnReady(schema, b, w.single, col);
  }

  // ---- Evaluation ------------------------------------------------------------------------------------------------------

  function TestRows(test: nat -> bool, m: nat): (rows: seq<bool>)
    ensures |rows| == m && forall i | 0 <= i < m :: rows[i] == test(i)
  {
    seq(m, i requires 0 <= i < m => test(i))
  }

  /** The kernels that clear the mask and set the bits of the matching rows. */
  method EvalRows(test: nat -> bool, m: nat, out: array<Byte>)
    requires out.Length == Bytes(m)
    modifies out
    ensures Encodes(out[..], TestRows(test, m))
  {
    FillFalse(out, m);
    ghost var rows := NoRows(m);
    for i := 0 to m
      invariant |rows| == m && Encodes(out[..], rows)
      invariant forall j | 0 <= j < m :: rows[j] == (j < i && test(j))
    {
      if test(i) {
        SetMaskRows(out[..], i, rows);
        SetBit(out, i);
        rows := rows[i := true];
      }
    }
    assert rows == TestRows(test, m);
  }

  /** IS_EMPTY and IS_NOT_EMPTY on a text column: lengths first, then the nulls on top. */
  method EvalEmpty(c: Column, r0: nat, m: nat, isEmpty: bool, out: array<Byte>)
    requires out.Length == Bytes(m) && r0 % 8 == 0 && Shows(ValidityFrom(c, r0), ValidRows(c, r0, m))
    modifies out
    ensures Encodes(out[..], EmptyRows(c, r0, m, isEmpty))
  {
    var test := (i: nat) => ValidAt(c, r0 + i) && (TextAt(c, r0 + i) == "") == isEmpty;
    EvalRows(test, m, out);
    if isEmpty && c.validity.Some? {
      var nulls := new Byte[Bytes(m)](_ => 0);
      EvalNull(ValidityFrom(c, r0), ValidRows(c, r0, m), true, nulls, m);
      OrMaskRows(out[..], nulls[..], TestRows(test, m), NullRows(ValidRows(c, r0, m), true));
      OrInto(out, nulls);
      assert OrRows(TestRows(test, m), NullRows(ValidRows(c, r0, m), true)) == EmptyRows(c, r0, m, isEmpty);
    } else {
      forall i | 0 <= i < m ensures test(i) == EmptyRows(c, r0, m, isEmpty)[i] { assert isEmpty ==> ValidAt(c, r0 + i); }
      assert TestRows(test, m) == EmptyRows(c, r0, m, isEmpty);
    }
  }

  method EvalComparison(ghost schema: seq<Field>, w: World, mc: Machine, ghost p: Predicate, col: int, ctype: ColumnType, op: OpType,
                        threshold: nat, b: Batch, r0: nat, m: nat, zone: Option<Zone>, out: array<Byte>)
    requires Ready(schema, w, p, b, r0, m) && InSchema(schema, col) && schema[col].ctype == ctype && IsNumeric(ctype)
    requires out.Length == Bytes(m)
    modifies out
    ensures Has(b, col) && b.columns[col].values.Numbers? && |b.columns[col].values.data| == b.n
    ensures Encodes(out[..], ComparisonRows(w, mc, col, ctype, op, threshold, b, r0, m, zone))
  {
    NumbersReady(schema, w, p, b, r0, m, col);
    if zone.Some? && op <= 5 {
      var fired := TryZoneNumeric(NumOpOf(op), w.number(threshold), zone.value, out, m);
      if fired { return; }
    }
    MorselShows(schema[col], b.columns[col], b.n, w.single, r0, m);
    EvalKernel(b.columns[col].values.data[r0..r0 + m],
               NumericTest(NumberType(ctype, w.single), WildOf(mc, ctype), NumOpOf(op), w.number(threshold)),
               ValidityFrom(b.columns[col], r0), ValidRows(b.columns[col], r0, m), out);
  }

  method EvalRange(ghost schema: seq<Field>, w: World, mc: Machine, p: Predicate, b: Batch, r0: nat, m: nat, zone: Option<Zone>, out: array<Byte>)
    requires Ready(schema, w, p, b, r0, m) && p.Range? && out.Length == Bytes(m)
    modifies out
    ensures Encodes(out[..], LeafRows(schema, w, mc, p, b, r0, m, zone))
  {
    var including, lo, hi := p.op == 8, w.number(p.lower), w.number(p.upper);
    NumbersReady(schema, w, p, b, r0, m, p.col);
    if zone.Some? {
      var fired := TryZoneRange(including, lo, hi, zone.value, out, m);
      if fired { return; }
    }
    MorselShows(schema[p.col], b.columns[p.col], b.n, w.single, r0, m);
    EvalKernel(b.columns[p.col].values.data[r0..r0 + m], RangeTest(NumberType(p.ctype, w.single), WildOf(mc, p.ctype), including, lo, hi),
               ValidityFrom(b.columns[p.col], r0), ValidRows(b.columns[p.col], r0, m), out);
  }

  /** Bit sets of closed values in one branch, dictionary ids in the other. */
  method EvalCategorical(ghost schema: seq<Field>, w: World, ghost mc: Machine, p: Predicate, b: Batch, r0: nat, m: nat, ghost zone: Option<Zone>,
                         out: array<Byte>)
    requires Ready(schema, w, p, b, r0, m) && p.Categorical? && out.Length == Bytes(m)
    modifies out
    ensures Encodes(out[..], LeafRows(schema, w, mc, p, b, r0, m, zone))
  {
    ColumnReady(schema, b, w.single, p.col);
    MorselShows(schema[p.col], b.columns[p.col], b.n, w.single, r0, m);
    hide CategoricalHolds, Encodes, Shows;
    var c, ids := b.columns[p.col], Ids(w, p.col, p.values);
    if c.values.Words? {
      EvalKernel(c.values.words[r0..r0 + m], WordTest(p.op, ids), ValidityFrom(c, r0), ValidRows(c, r0, m), out);
    } else {
      EvalKernel(c.values.ids[r0..r0 + m], CodeTest(p.op, ids), ValidityFrom(c, r0), ValidRows(c, r0, m), out);
    }
  }

  method EvalNullTest(ghost schema: seq<Field>, w: World, ghost mc: Machine, p: Predicate, b: Batch, r0: nat, m: nat, ghost zone: Option<Zone>,
                      out: array<Byte>)
    requires Ready(schema, w, p, b, r0, m) && p.NullTest? && out.Length == Bytes(m)
    modifies out
    ensures Encodes(out[..], LeafRows(schema, w, mc, p, b, r0, m, zone))
  {
    ColumnReady(schema, b, w.single, p.col);
    MorselShows(schema[p.col], b.columns[p.col], b.n, w.single, r0, m);
    hide Encodes, Shows;
    var c := b.columns[p.col];
    if (p.op == IS_EMPTY || p.op == IS_NOT_EMPTY) && c.values.Strings? {
      EvalEmpty(c, r0, m, p.op == IS_EMPTY, out);
    } else {
      EvalNull(ValidityFrom(c, r0), ValidRows(c, r0, m), p.op == IS_NULL || p.op == IS_EMPTY, out, m);
    }
  }

  /** `eval_predicate`. */
  method EvalPredicate(ghost schema: seq<Field>, w: World, mc: Machine, p: Predicate, b: Batch, r0: nat, m: nat, zone: Option<Zone>, out: array<Byte>)
    requires Ready(schema, w, p, b, r0, m) && out.Length == Bytes(m)
    modifies out
    ensures Encodes(out[..], LeafRows(schema, w, mc, p, b, r0, m, zone))
  {
    hide Encodes, RowTest, ComparisonRows, BatchFits;
    match p {
      case Numeric(col, ctype, op, threshold) =>
        EvalComparison(schema, w, mc, p, col, ctype, op, threshold, b, r0, m, zone, out);
      case Window(col, ctype, op, threshold) =>
        EvalComparison(schema, w, mc, p, col, ctype, op, threshold, b, r0, m, zone, out);
      case Range(_, _, _, _, _) =>
        EvalRange(schema, w, mc, p, b, r0, m, zone, out);
      case Categorical(_, _, _) =>
        EvalCategorical(schema, w, mc, p, b, r0, m, zone, out);
      case NullTest(_, _) =>
        EvalNullTest(schema, w, mc, p, b, r0, m, zone, out);
      case _ =>
        var test := (i: nat) => RowTest(w, mc, p, b, r0, i);
        EvalRows(test, m, out);
        assert TestRows(test, m) == LeafRows(schema, w, mc, p, b, r0, m, zone);
    }
  }
}
