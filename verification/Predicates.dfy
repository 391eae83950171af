/** Predicate operations, what each one answers on a row, and the operator flip that the compiler
    applies under NOT. */
module Predicates {
  import opened Bits
  import ClosedValues
  import opened Casts
  import opened Comparisons
  import opened LeafKernels
  import Ipv4Text

  /** `OpType`, by its enumeration code. */
  type OpType = op: nat | op <= 50

  const GT: OpType := 0
  const LT: OpType := 1
  const GTE: OpType := 2
  const LTE: OpType := 3
  const EQ: OpType := 4
  const NEQ: OpType := 5
  const IN: OpType := 6
  const NOT_IN: OpType := 7
  const IS_NULL: OpType := 10
  const IS_NOT_NULL: OpType := 11
  const IS_EMPTY: OpType := 12
  const IS_NOT_EMPTY: OpType := 13
  const GT_FIELD: OpType := 14
  const LT_FIELD: OpType := 15
  const GTE_FIELD: OpType := 16
  const LTE_FIELD: OpType := 17
  const EQ_FIELD: OpType := 18
  const NEQ_FIELD: OpType := 19
  const CONTAINS_ANY: OpType := 20
  const CONTAINS_ALL: OpType := 21
  const INTERSECTS: OpType := 22
  const NOT_INTERSECTS: OpType := 23
  const FLAGS_ANY: OpType := 27
  const FLAGS_ALL: OpType := 28
  const FLAGS_NONE: OpType := 29
  const IP_IN_SUBNET: OpType := 37
  const IP_NOT_IN_SUBNET: OpType := 38
  const REGEX: OpType := 46
  const NOT_REGEX: OpType := 47
  const IN_LOOKUP: OpType := 48
  const NOT_IN_LOOKUP: OpType := 49

  /** `ColumnType`, by its enumeration code. */
  type ColumnType = t: nat | t <= 8
  const CATEGORICAL: ColumnType := 4
  const ENTITY_KEY: ColumnType := 5
  const BOOLEAN: ColumnType := 7
  const STRING: ColumnType := 8

  predicate IsNumeric(t: ColumnType) {
    t <= 3 || t == 6
  }

  datatype Textual = One(s: string) | Many(vs: seq<string>)

  datatype ValueNode = ValueNode(kind: nat, col: int, ctype: ColumnType, literal: nat, left: int, right: int)

  /** A predicate operation without its output register.  Doubles are their 64-bit patterns. */
  datatype Predicate =
    | Numeric(col: int, ctype: ColumnType, op: OpType, threshold: nat)
    | Range(col: int, ctype: ColumnType, op: OpType, lower: nat, upper: nat)
    | Categorical(col: int, op: OpType, values: Textual)
    | ArrayLen(col: int, op: OpType, length: int)
    | NullTest(col: int, op: OpType)
    | CrossField(col: int, right: int, ctype: ColumnType, rtype: ColumnType, op: OpType)
    | Bitfield(col: int, ctype: ColumnType, op: OpType, mask: nat)
    | Str(col: int, op: OpType, pattern: string, length: int)
    | Regex(col: int, op: OpType, pattern: string)
    | Lookup(col: int, ctype: ColumnType, op: OpType, name: string, kind: int, generation: nat)
    | Cidr(col: int, ctype: ColumnType, op: OpType, network: nat, mask: nat)
    | Temporal(col: int, op: OpType, value: int, lower: nat, upper: nat, days: seq<int>)
    | Geo(col: int, lon: int, otherLat: int, otherLon: int, op: OpType, threshold: nat)
    | Arithmetic(op: OpType, threshold: nat, other: int, otherType: ColumnType, nodes: seq<ValueNode>)
    | Window(col: int, ctype: ColumnType, op: OpType, threshold: nat)

  /** An integer as an unsigned word of so many digits, as a cast makes it. */
  function Unsigned(n: int, digits: nat): nat {
    n % Pow2(digits)
  }

  /** One cell of the encoded batch: a number, a dictionary id, a bit set of closed values, text, or a flag. */
  datatype Cell = Null | Num(x: real) | Id(id: int) | Labels(bits: nat) | Text(s: string) | Flag(b: bool) {
    function Number(): real { if Num? then x else 0.0 }
    function Code(): int { if Id? then id else -1 }
    function Chars(): string { if Text? then s else "" }

    /** The 64 flags of an integer. */
    function Word(): nat {
      if Labels? then bits else Unsigned(Number().Floor, 64)
    }

    /** A dotted address, or the low 32 digits of an integer. */
    function Address(): nat {
      if Text? then Ipv4Text.AddressOf(s) else Unsigned(Number().Floor, 32)
    }
  }

  type Row = int -> Cell

  /** What the compiled rules are evaluated against besides the row. */
  datatype World = World(
    number: nat -> real,              // the value of a double's bit pattern
    single: real -> real,             // rounding to a 32-bit float
    idOf: (int, string) -> int,       // the dictionary id of a text in a column, -1 when absent
    regexMatch: (string, string) -> bool,
    inLookup: (string, Cell) -> bool,
    other: (Predicate, Row) -> bool)  // string, temporal, distance, arithmetic and length tests

  function NumOpOf(op: OpType): NumOp {
    if op == 1 then NumOp.LT else if op == 2 then NumOp.GTE else if op == 3 then NumOp.LTE
    else if op == 4 then NumOp.EQ else if op == 5 then NumOp.NEQ else NumOp.GT
  }

  /** `numeric_compare` on a field operator. */
  function FieldCompare(op: OpType, a: real, b: real): bool {
    14 <= op <= 19 && Compare(NumOpOf(op - 14), a, b)
  }

  function Ids(w: World, col: int, values: Textual): seq<int> {
    match values
    case One(s) => [w.idOf(col, s)]
    case Many(vs) => seq(|vs|, i requires 0 <= i < |vs| => w.idOf(col, vs[i]))
  }

  function CategoricalHolds(cell: Cell, op: OpType, ids: seq<int>): bool {
    if cell.Labels? then
      var requested := ClosedValues.BitsOf(ids);
      if op == CONTAINS_ALL then And(cell.bits, requested) == requested
      else if op in {NOT_IN, NEQ, NOT_INTERSECTS} then And(cell.bits, requested) == 0
      else And(cell.bits, requested) != 0
    else if op == CONTAINS_ALL then |ids| <= 1 && cell.Code() in ids
    else if op in {NOT_IN, NEQ, NOT_INTERSECTS} then cell.Code() !in ids
    else if op == EQ then cell.Code() == if ids == [] then -1 else ids[0]
    else cell.Code() in ids
  }

  function CrossHolds(p: Predicate, a: Cell, b: Cell): bool
    requires p.CrossField?
  {
    var equality := p.op == EQ_FIELD || p.op == NEQ_FIELD;
    if !IsNumeric(p.ctype) && !IsNumeric(p.rtype) && equality then (a == b) == (p.op == EQ_FIELD)
    else FieldCompare(p.op, a.Number(), b.Number())
  }

  /** Whether every column the predicate reads is non-null. */
  predicate Known(p: Predicate, row: Row) {
    match p
    case CrossField(col, right, _, _, _) => row(col) != Null && row(right) != Null
    case Geo(a, b, c, d, _, _) => row(a) != Null && row(b) != Null && row(c) != Null && row(d) != Null
    case Arithmetic(_, _, other, _, nodes) =>
      && (other >= 0 ==> row(other) != Null)
      && forall k | 0 <= k < |nodes| && nodes[k].kind == 0 :: row(nodes[k].col) != Null
    case _ => row(p.col) != Null
  }

  /** A null test answers on every row; any other predicate needs its columns. */
  predicate Decided(p: Predicate, row: Row) {
    p.NullTest? || Known(p, row)
  }

  /** What the predicate says of a row: its columns are known and their values pass the test, with the rule's own
      thresholds.  When the kernels write this bit is proved in `LeafEval`. */
  predicate Holds(w: World, p: Predicate, row: Row) {
    && Decided(p, row)
    && match p
       case Numeric(col, _, op, threshold) => Compare(NumOpOf(op), row(col).Number(), w.number(threshold))
       case Window(col, _, op, threshold) => Compare(NumOpOf(op), row(col).Number(), w.number(threshold))
       case Range(col, _, op, lower, upper) => InRange(op == 8, w.number(lower), w.number(upper), row(col).Number())
       case Categorical(col, op, values) => CategoricalHolds(row(col), op, Ids(w, col, values))
       case NullTest(col, op) =>
         if op == IS_EMPTY then row(col) == Null || row(col) == Text("")
         else if op == IS_NOT_EMPTY then row(col) != Null && row(col) != Text("")
         else (row(col) == Null) == (op == IS_NULL)
       case CrossField(col, right, _, _, _) => CrossHolds(p, row(col), row(right))
       case Bitfield(col, _, op, mask) =>
         var common := And(row(col).Word(), mask);
         if op == FLAGS_ALL then common == mask else if op == FLAGS_NONE then common == 0 else common != 0
       case Regex(col, op, pattern) => w.regexMatch(pattern, row(col).Chars()) != (op == NOT_REGEX)
       case Lookup(col, _, op, name, _, _) => w.inLookup(name, row(col)) != (op == NOT_IN_LOOKUP)
       case Cidr(col, _, op, network, mask) => (And(row(col).Address(), mask) == network) != (op == IP_NOT_IN_SUBNET)
       case _ => w.other(p, row)
  }

  // ---- NOT over a leaf -----------------------------------------------------------------------------

  /** `invert_op`. */
  function InvertOp(op: OpType): OpType {
    if op == GT then LTE else if op == GTE then LT else if op == LT then GTE else if op == LTE then GT
    else if op == EQ then NEQ else if op == NEQ then EQ
    else if op == IN then NOT_IN else if op == NOT_IN then IN
    else if op == IS_NULL then IS_NOT_NULL else if op == IS_NOT_NULL then IS_NULL
    else if op == IS_EMPTY then IS_NOT_EMPTY else if op == IS_NOT_EMPTY then IS_EMPTY
    else if op == GT_FIELD then LTE_FIELD else if op == GTE_FIELD then LT_FIELD
    else if op == LT_FIELD then GTE_FIELD else if op == LTE_FIELD then GT_FIELD
    else if op == EQ_FIELD then NEQ_FIELD else if op == NEQ_FIELD then EQ_FIELD
    else if op == CONTAINS_ANY then NOT_INTERSECTS else if op == INTERSECTS then NOT_INTERSECTS
    else if op == NOT_INTERSECTS then INTERSECTS
    else if op == FLAGS_ANY then FLAGS_NONE else if op == FLAGS_NONE then FLAGS_ANY
    else if op == IP_IN_SUBNET then IP_NOT_IN_SUBNET else if op == IP_NOT_IN_SUBNET then IP_IN_SUBNET
    else if op == REGEX then NOT_REGEX else if op == NOT_REGEX then REGEX
    else if op == IN_LOOKUP then NOT_IN_LOOKUP else if op == NOT_IN_LOOKUP then IN_LOOKUP
    else op
  }

  /** The leaf kinds whose operator NOT flips; over any other the mask is complemented. */
  predicate Flips(p: Predicate) {
    p.Numeric? || p.Categorical? || p.NullTest? || p.CrossField? || p.Bitfield? || p.Cidr? || p.Regex? || p.Lookup? ||
    p.Window?
  }

  function Invert(p: Predicate): Predicate
    requires Flips(p)
  {
    p.(op := InvertOp(p.op))
  }

  /** An operator that belongs to the leaf's kind; equality with one value, as both parsers build it. */
  predicate Proper(p: Predicate) {
    match p
    case Numeric(_, _, op, _) => op <= 5
    case Window(_, _, op, _) => op <= 5
    case Categorical(_, op, values) =>
      && op in {EQ, NEQ, IN, NOT_IN, CONTAINS_ANY, CONTAINS_ALL, INTERSECTS, NOT_INTERSECTS}
      && (op in {EQ, NEQ} ==> values.One? || |values.vs| == 1)
    case NullTest(_, op) => op in {IS_NULL, IS_NOT_NULL, IS_EMPTY, IS_NOT_EMPTY}
    case CrossField(_, _, _, _, op) => 14 <= op <= 19
    case Bitfield(_, _, op, _) => op in {FLAGS_ANY, FLAGS_ALL, FLAGS_NONE}
    case Regex(_, op, _) => op in {REGEX, NOT_REGEX}
    case Lookup(_, _, op, _, _, _) => op in {IN_LOOKUP, NOT_IN_LOOKUP}
    case Cidr(_, _, op, _, _) => op in {IP_IN_SUBNET, IP_NOT_IN_SUBNET}
    case _ => true
  }

  /** The operators that have a complement in the enumeration. */
  predicate Invertible(op: OpType) {
    op != CONTAINS_ALL && op != FLAGS_ALL
  }

  /** The flipped leaf answers "decided and not p". */
  predicate FlipAgrees(w: World, p: Predicate, row: Row)
    requires Flips(p)
  {
    Holds(w, Invert(p), row) == (Decided(p, row) && !Holds(w, p, row))
  }

  lemma {:induction false} AndSelf(a: nat)
    ensures And(a, a) == a
  {
    if a != 0 { AndSelf(a / 2); }
  }

  lemma FlipIsExact(w: World, p: Predicate, row: Row)
    requires Flips(p) && Proper(p) && Invertible(p.op)
    ensures FlipAgrees(w, p, row)
  {
    match p
    case Categorical(col, op, values) =>
      var ids := Ids(w, col, values);
      if op in {EQ, NEQ} { assert |ids| == 1 && (row(col).Code() in ids <==> row(col).Code() == ids[0]); }
    case _ =>
  }

  /** Flipping the operator negates a leaf on every row exactly when the operator has a complement:
      CONTAINS_ALL and FLAGS_ALL come back unchanged from `invert_op`. */
  lemma FlipExactIff(w: World, p: Predicate)
    requires Flips(p) && Proper(p)
    ensures Invertible(p.op) <==> forall row: Row :: FlipAgrees(w, p, row)
  {
    if Invertible(p.op) {
      forall row: Row ensures FlipAgrees(w, p, row) { FlipIsExact(w, p, row); }
    } else {
      var bits := if p.Bitfield? then p.mask else ClosedValues.BitsOf(Ids(w, p.col, p.values));
      AndSelf(bits);
      var row: Row := _ => Labels(bits);
      assert Holds(w, p, row) && Invert(p) == p;
      assert !FlipAgrees(w, p, row);
    }
  }
}
