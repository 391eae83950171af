/** A batch as the kernels see it: one typed values buffer a column, with a validity buffer beside it, and the rows
    of cells that the buffers stand for. */
module Columns {
  import opened Bits
  import opened ByteMask
  import opened Casts
  import opened LeafKernels
  import opened Optional
  import opened Predicates

  /** The numbers of a numeric column type; FLOAT32 columns round as `single` does. */
  function NumberType(ctype: ColumnType, single: real -> real): NumType
    requires IsNumeric(ctype)
  {
    if ctype == 0 then Float(single) else if ctype == 1 then Float(x => x) else if ctype == 2 then INT32 else INT64
  }

  lemma NumberTypeSane(ctype: ColumnType, single: real -> real)
    requires IsNumeric(ctype) && Rounding(single)
    ensures Sane(NumberType(ctype, single))
  {
  }

  /** The column types whose numbers are integers. */
  predicate IsInteger(ctype: ColumnType) {
    ctype == 2 || ctype == 3 || ctype == 6
  }

  /** A column of the schema.  A categorical column with fewer than 63 closed values holds words, any other
      dictionary ids. */
  datatype Field = Field(ctype: ColumnType, words: bool)

  datatype Values =
    | Numbers(data: seq<real>)
    | Codes(ids: seq<int>)
    | Words(words: seq<nat>)
    | Strings(texts: seq<string>)
    | Flags(flags: seq<bool>)

  /** What stands in the values buffer under a null is any value of the type. */
  datatype Column = Column(ctype: ColumnType, values: Values, validity: Option<seq<Byte>>)

  datatype Batch = Batch(n: nat, columns: seq<Column>)

  function SizeOf(values: Values): nat {
    match values
    case Numbers(data) => |data|
    case Codes(ids) => |ids|
    case Words(words) => |words|
    case Strings(texts) => |texts|
    case Flags(flags) => |flags|
  }

  ghost predicate ValuesFit(f: Field, values: Values, single: real -> real) {
    match values
    case Numbers(data) => IsNumeric(f.ctype) && LeafKernels.Column(NumberType(f.ctype, single), data)
    case Codes(_) => f.ctype == ENTITY_KEY || (f.ctype == CATEGORICAL && !f.words)
    case Words(_) => f.ctype == CATEGORICAL && f.words
    case Strings(_) => f.ctype == STRING
    case Flags(_) => f.ctype == BOOLEAN
  }

  /** The column has n rows of the field's type, and validity bits for all of them if it has any. */
  ghost predicate ColumnFits(f: Field, c: Column, n: nat, single: real -> real) {
    && c.ctype == f.ctype && SizeOf(c.values) == n && ValuesFit(f, c.values, single)
    && (c.validity.Some? ==> Bytes(n) <= |c.validity.value|)
  }

  ghost predicate BatchFits(schema: seq<Field>, b: Batch, single: real -> real) {
    && |b.columns| == |schema|
    && forall c | 0 <= c < |schema| :: ColumnFits(schema[c], b.columns[c], b.n, single)
  }

  predicate ValidAt(c: Column, i: nat) {
    c.validity.None? || (i < 8 * |c.validity.value| && At(c.validity.value, i))
  }

  function CellOf(c: Column, i: nat): Cell {
    if i >= SizeOf(c.values) || !ValidAt(c, i) then Null
    else
      match c.values
      case Numbers(data) => Num(data[i])
      case Codes(ids) => Id(ids[i])
      case Words(words) => Labels(words[i])
      case Strings(texts) => Text(texts[i])
      case Flags(flags) => Flag(flags[i])
  }

  /** A valid row's cell is the value itself, in each kind of storage. */
  lemma CellSays(c: Column, i: nat)
    ensures i < SizeOf(c.values) && ValidAt(c, i) ==>
              && (c.values.Numbers? ==> CellOf(c, i) == Num(c.values.data[i]))
              && (c.values.Codes? ==> CellOf(c, i) == Id(c.values.ids[i]))
              && (c.values.Words? ==> CellOf(c, i) == Labels(c.values.words[i]))
              && (c.values.Strings? ==> CellOf(c, i) == Text(c.values.texts[i]))
              && (c.values.Flags? ==> CellOf(c, i) == Flag(c.values.flags[i]))
    ensures i >= SizeOf(c.values) || !ValidAt(c, i) ==> CellOf(c, i) == Null
    ensures c.validity.None? ==> ValidAt(c, i)
  {
  }

  predicate Has(b: Batch, col: int) {
    0 <= col < |b.columns|
  }

  function RowOf(b: Batch, i: nat): Row {
    col => if Has(b, col) then CellOf(b.columns[col], i) else Null
  }

  /** The rows r0, ..., r0 + m - 1. */
  function MorselRows(b: Batch, r0: nat, m: nat): (rows: seq<Row>)
    ensures |rows| == m && forall i | 0 <= i < m :: rows[i] == RowOf(b, r0 + i)
  {
    seq<Row>(m, i requires 0 <= i < m => RowOf(b, r0 + i))
  }

  function RowsOf(b: Batch): seq<Row> {
    MorselRows(b, 0, b.n)
  }

  lemma MorselOfRows(b: Batch, r0: nat, m: nat)
    requires r0 + m <= b.n
    ensures RowsOf(b)[r0..r0 + m] == MorselRows(b, r0, m)
  {
  }

  // ---- One morsel of a column --------------------------------------------------------------------------------

  function ValidRows(c: Column, r0: nat, m: nat): (valid: seq<bool>)
    ensures |valid| == m
  {
    seq(m, i requires 0 <= i < m => ValidAt(c, r0 + i))
  }

  /** `validity_ptr`: the buffer from the morsel's byte on. */
  function ValidityFrom(c: Column, r0: nat): Option<seq<Byte>> {
    match c.validity
    case None => None
    case Some(bytes) => Some(if r0 / 8 <= |bytes| then bytes[r0 / 8..] else [])
  }

  lemma MorselShows(f: Field, c: Column, n: nat, single: real -> real, r0: nat, m: nat)
    requires ColumnFits(f, c, n, single) && r0 % 8 == 0 && r0 + m <= n
    ensures Shows(ValidityFrom(c, r0), ValidRows(c, r0, m))
  {
    if c.validity.Some? {
      var bytes := c.validity.value;
      var from := bytes[r0 / 8..];
      assert Bytes(r0 + m) == r0 / 8 + Bytes(m);
      forall i: nat | i < m ensures i < 8 * |from| && At(from, i) == ValidAt(c, r0 + i) {
        assert (r0 + i) / 8 == r0 / 8 + i / 8 && (r0 + i) % 8 == i % 8;
        assert r0 + i < 8 * |bytes|;
      }
      forall i: nat | i < m ensures Rows(from, m)[i] == ValidRows(c, r0, m)[i] { assert Rows(from, m)[i] == At(from, i); }
      assert Rows(from, m) == ValidRows(c, r0, m);
    } else {
      forall i: nat | i < m ensures ValidRows(c, r0, m)[i] { assert ValidAt(c, r0 + i); }
    }
  }
}
