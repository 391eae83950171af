/** The ingest column: values appended row by row, packed bits that only ever get set, and the rollback
    of a half-appended row. */
module ColumnBuffer {
  import opened Bits
  import opened ByteMask
  import opened MaskKernels

  /** The four numeric column types keep one number per row in one vector. */
  datatype Kind = Numbers | Flags | Texts

  /** A value as it is appended: after coercion to the column's type. */
  datatype Cell = Null | Number(n: int) | Flag(b: bool) | Text(s: string)

  predicate Fits(kind: Kind, cell: Cell) {
    match cell
    case Null => true
    case Number(_) => kind.Numbers?
    case Flag(_) => kind.Flags?
    case Text(_) => kind.Texts?
  }

  datatype Buffer = Buffer(
    kind: Kind,
    nullable: bool,
    length: nat,
    nulls: nat,
    numbers: seq<int>,
    flags: seq<Byte>,
    validity: seq<Byte>,
    offsets: seq<nat>,
    text: string)

  /** After `reset`. */
  function Fresh(kind: Kind, nullable: bool): Buffer {
    Buffer(kind, nullable, 0, 0, [], [], [], if kind.Texts? then [0] else [], "")
  }

  function Zeros(n: nat): (z: seq<Byte>)
    ensures |z| == n
  {
    seq(n, _ => 0)
  }

  /** `ensure_bit_slot`: room for a bit, new bytes zero. */
  function Room(bits: seq<Byte>, index: nat): (out: seq<Byte>)
    ensures bits <= out && index / 8 < |out|
  {
    if index / 8 >= |bits| then bits + Zeros(index / 8 + 1 - |bits|) else bits
  }

  /** `set_bit`: sets a bit or leaves it as it is; it never clears one. */
  function PutBit(bits: seq<Byte>, index: nat, value: bool): (out: seq<Byte>)
    ensures |out| == |Room(bits, index)|
  {
    if value then SetMask(Room(bits, index), index) else Room(bits, index)
  }

  /** `append_null`: a null, or the type's default in a column that is not nullable. */
  function AppendNull(b: Buffer): Buffer {
    b.(length := b.length + 1,
       nulls := b.nulls + if b.nullable then 1 else 0,
       numbers := if b.kind.Numbers? then b.numbers + [0] else b.numbers,
       flags := if b.kind.Flags? then PutBit(b.flags, b.length, false) else b.flags,
       validity := if b.nullable then Room(b.validity, b.length)
                   else if b.validity != [] then PutBit(b.validity, b.length, true) else b.validity,
       offsets := if b.kind.Texts? && b.offsets != [] then b.offsets + [b.offsets[|b.offsets| - 1]] else b.offsets)
  }

  /** `append_json_value` behind the coercion. */
  function Append(b: Buffer, cell: Cell): Buffer {
    var marked := if b.nullable then PutBit(b.validity, b.length, true) else b.validity;
    match cell
    case Null => AppendNull(b)
    case Number(n) => b.(length := b.length + 1, validity := marked, numbers := b.numbers + [n])
    case Flag(v) => b.(length := b.length + 1, validity := marked, flags := PutBit(b.flags, b.length, v))
    case Text(s) => b.(length := b.length + 1, validity := marked, text := b.text + s, offsets := b.offsets + [|b.text + s|])
  }

  // ---- Packed bits -------------------------------------------------------------------------------------------

  /** Setting the next row's bit in clean bytes. */
  lemma PutBitRows(bits: seq<Byte>, rows: seq<bool>, value: bool)
    requires Encodes(bits, rows)
    ensures Encodes(PutBit(bits, |rows|, value), rows + [value])
  {
    var n, wide, room := |rows|, rows + [false], Room(bits, |rows|);
    EncodesByBytes(bits, rows);
    forall j: nat | j < |room| ensures EncodesByte(room[j], j, wide) {
      if j < |bits| {
        assert EncodesByte(bits[j], j, rows);
      } else {
        forall k: nat | k < 8 ensures !Bit(0, k) { ZeroBit(k); }
      }
    }
    EncodesByBytes(room, wide);
    if value {
      SetMaskRows(room, n, wide);
      assert wide[n := true] == rows + [true];
    }
  }

  /** A bit at index n, in bytes that may hold anything there. */
  lemma PutBitAt(bits: seq<Byte>, n: nat, value: bool, i: nat)
    requires |bits| == Bytes(n) && i <= n
    ensures |PutBit(bits, n, value)| == Bytes(n + 1)
    ensures At(PutBit(bits, n, value), i)
            <==> if i < n then At(bits, i) else value || (n % 8 != 0 && At(bits, n))
  {
    var room := Room(bits, n);
    if n % 8 == 0 && i == n { ZeroBit(n % 8); }
    if value {
      OrBit(room[n / 8], Pow2(n % 8), i % 8);
      Pow2Bit(n % 8, i % 8);
    }
  }

  // ---- What a buffer holds -----------------------------------------------------------------------------------

  function Valids(cells: seq<Cell>): (v: seq<bool>)
    ensures |v| == |cells| && forall i | 0 <= i < |v| :: v[i] == !cells[i].Null?
  {
    seq(|cells|, i requires 0 <= i < |cells| => !cells[i].Null?)
  }

  function FlagsOf(cells: seq<Cell>): (v: seq<bool>)
    ensures |v| == |cells| && forall i | 0 <= i < |v| :: v[i] == (cells[i] == Flag(true))
  {
    seq(|cells|, i requires 0 <= i < |cells| => cells[i] == Flag(true))
  }

  function NumbersOf(cells: seq<Cell>): (v: seq<int>)
    ensures |v| == |cells| && forall i | 0 <= i < |v| :: v[i] == if cells[i].Number? then cells[i].n else 0
  {
    seq(|cells|, i requires 0 <= i < |cells| => if cells[i].Number? then cells[i].n else 0)
  }

  function TextOf(cells: seq<Cell>): string {
    if cells == [] then ""
    else
      var last := cells[|cells| - 1];
      if last.Text? then TextOf(cells[..|cells| - 1]) + last.s else TextOf(cells[..|cells| - 1])
  }

  function OffsetsOf(cells: seq<Cell>): (offsets: seq<nat>)
    ensures |offsets| == |cells| + 1 && offsets[|cells|] == |TextOf(cells)|
  {
    if cells == [] then [0] else OffsetsOf(cells[..|cells| - 1]) + [|TextOf(cells)|]
  }

  function NullsOf(cells: seq<Cell>): nat {
    if cells == [] then 0 else NullsOf(cells[..|cells| - 1]) + if cells[|cells| - 1].Null? then 1 else 0
  }

  ghost predicate AllFit(kind: Kind, cells: seq<Cell>) {
    forall i | 0 <= i < |cells| :: Fits(kind, cells[i])
  }

  ghost predicate HoldsValues(b: Buffer, cells: seq<Cell>) {
    && b.length == |cells|
    && b.nulls == (if b.nullable then NullsOf(cells) else 0)
    && b.numbers == (if b.kind.Numbers? then NumbersOf(cells) else [])
    && b.offsets == (if b.kind.Texts? then OffsetsOf(cells) else [])
    && b.text == (if b.kind.Texts? then TextOf(cells) else "")
  }

  ghost predicate HoldsBits(b: Buffer, cells: seq<Cell>) {
    && (if b.kind.Flags? then Encodes(b.flags, FlagsOf(cells)) else b.flags == [])
    && (if b.nullable then Encodes(b.validity, Valids(cells)) else b.validity == [])
  }

  /** The buffer of exactly these cells, packed bits beyond the last row zero. */
  ghost predicate Represents(b: Buffer, cells: seq<Cell>) {
    AllFit(b.kind, cells) && HoldsValues(b, cells) && HoldsBits(b, cells)
  }

  lemma FreshRepresents(kind: Kind, nullable: bool)
    ensures Represents(Fresh(kind, nullable), [])
  {
  }

  lemma AppendBits(b: Buffer, cells: seq<Cell>, cell: Cell)
    requires b.length == |cells| && HoldsBits(b, cells) && Fits(b.kind, cell)
    ensures HoldsBits(Append(b, cell), cells + [cell])
  {
    var more := cells + [cell];
    assert Valids(more) == Valids(cells) + [!cell.Null?];
    assert FlagsOf(more) == FlagsOf(cells) + [cell == Flag(true)];
    if b.nullable { PutBitRows(b.validity, Valids(cells), !cell.Null?); }
    if b.kind.Flags? { PutBitRows(b.flags, FlagsOf(cells), cell == Flag(true)); }
    hide Encodes, Room;
  }

  lemma OneMore(cells: seq<Cell>, cell: Cell)
    ensures NullsOf(cells + [cell]) == NullsOf(cells) + if cell.Null? then 1 else 0
    ensures TextOf(cells + [cell]) == if cell.Text? then TextOf(cells) + cell.s else TextOf(cells)
    ensures OffsetsOf(cells + [cell]) == OffsetsOf(cells) + [|TextOf(cells + [cell])|]
    ensures NumbersOf(cells + [cell]) == NumbersOf(cells) + [if cell.Number? then cell.n else 0]
  {
    assert (cells + [cell])[..|cells|] == cells;
  }

  lemma AppendValues(b: Buffer, cells: seq<Cell>, cell: Cell)
    requires HoldsValues(b, cells) && Fits(b.kind, cell)
    ensures HoldsValues(Append(b, cell), cells + [cell])
  {
    OneMore(cells, cell);
    hide PutBit, Room, NullsOf, TextOf, OffsetsOf, NumbersOf;
  }

  lemma AppendRepresents(b: Buffer, cells: seq<Cell>, cell: Cell)
    requires Represents(b, cells) && Fits(b.kind, cell)
    ensures Represents(Append(b, cell), cells + [cell])
  {
    AppendBits(b, cells, cell);
    AppendValues(b, cells, cell);
    hide PutBit, Room, HoldsBits, Encodes;
  }

  // ---- Whatever the bits ---------------------------------------------------------------------------------------

  ghost predicate BitSized(b: Buffer, rows: nat) {
    && |b.validity| == (if b.nullable then Bytes(rows) else 0)
    && |b.flags| == (if b.kind.Flags? then Bytes(rows) else 0)
  }

  /** The values, lengths and null count of exactly these cells; the packed bits may be others. */
  ghost predicate Carries(b: Buffer, cells: seq<Cell>) {
    AllFit(b.kind, cells) && HoldsValues(b, cells) && BitSized(b, |cells|)
  }

  /** The validity bits as they are read; a column without validity bytes has no nulls. */
  function ShownValid(b: Buffer): (bits: seq<bool>)
    ensures |bits| == b.length
  {
    if b.length <= 8 * |b.validity| then Rows(b.validity, b.length) else seq(b.length, _ => true)
  }

  function ShownFlags(b: Buffer): (bits: seq<bool>)
    ensures |bits| == b.length
  {
    if b.length <= 8 * |b.flags| then Rows(b.flags, b.length) else seq(b.length, _ => false)
  }

  /** A column of some cells shows their bits, and its bytes hold nothing else. */
  lemma RepresentsIff(b: Buffer, cells: seq<Cell>)
    ensures Represents(b, cells) <==>
            && Carries(b, cells)
            && (b.nullable ==> ShownValid(b) == Valids(cells) && Clean(b.validity, |cells|))
            && (b.kind.Flags? ==> ShownFlags(b) == FlagsOf(cells) && Clean(b.flags, |cells|))
  {
    hide TextOf, OffsetsOf, NullsOf, NumbersOf, At;
  }

  lemma AppendCarries(b: Buffer, cells: seq<Cell>, cell: Cell)
    requires Carries(b, cells) && Fits(b.kind, cell)
    ensures Carries(Append(b, cell), cells + [cell])
  {
    AppendValues(b, cells, cell);
    hide HoldsValues, SetMask;
  }

  lemma CarriesAligned(b: Buffer, cells: seq<Cell>)
    requires Carries(b, cells)
    ensures Aligned(b, |cells|)
  {
    OffsetsRise(cells);
  }

  /** Cells determine their buffer, byte for byte. */
  lemma RepresentsOne(a: Buffer, b: Buffer, cells: seq<Cell>)
    requires Represents(a, cells) && Represents(b, cells) && a.kind == b.kind && a.nullable == b.nullable
    ensures a == b
  {
    if a.kind.Flags? { CleanMasksEqual(a.flags, b.flags, |cells|); }
    if a.nullable { CleanMasksEqual(a.validity, b.validity, |cells|); }
  }

  // ---- Alignment ------------------------------------------------------------------------------------------------

  /** One entry per row in every vector the column uses, offsets rising from 0 to the byte count. */
  ghost predicate Aligned(b: Buffer, rows: nat) {
    && b.length == rows
    && |b.numbers| == (if b.kind.Numbers? then rows else 0)
    && |b.flags| == (if b.kind.Flags? then Bytes(rows) else 0)
    && |b.validity| == (if b.nullable then Bytes(rows) else 0)
    && (if b.kind.Texts? then Rising(b.offsets, rows, |b.text|) else b.offsets == [] && b.text == "")
  }

  ghost predicate Rising(offsets: seq<nat>, rows: nat, size: nat) {
    && |offsets| == rows + 1 && offsets[0] == 0 && offsets[rows] == size
    && forall i, j | 0 <= i <= j <= rows :: offsets[i] <= offsets[j]
  }

  lemma AppendAligned(b: Buffer, rows: nat, cell: Cell)
    requires Aligned(b, rows) && Fits(b.kind, cell)
    ensures Aligned(Append(b, cell), rows + 1)
  {
  }

  // ---- Rollback ---------------------------------------------------------------------------------------------------

  lemma {:induction false} OffsetsRise(cells: seq<Cell>)
    ensures Rising(OffsetsOf(cells), |cells|, |TextOf(cells)|)
  {
    if cells != [] { OffsetsRise(cells[..|cells| - 1]); }
  }

  lemma RepresentsAligned(b: Buffer, cells: seq<Cell>)
    requires Represents(b, cells)
    ensures Aligned(b, |cells|)
  {
    OffsetsRise(cells);
  }

  /** The sizes taken before a row. */
  datatype Snapshot = Snapshot(length: nat, nulls: nat, numbers: nat, flags: nat, validity: nat, offsets: nat, text: nat)

  function Snap(b: Buffer): Snapshot {
    Snapshot(b.length, b.nulls, |b.numbers|, |b.flags|, |b.validity|, |b.offsets|, |b.text|)
  }

  ghost predicate Covers(b: Buffer, s: Snapshot) {
    && s.numbers <= |b.numbers| && s.flags <= |b.flags| && s.validity <= |b.validity|
    && s.offsets <= |b.offsets| && s.text <= |b.text|
  }

  /** `abort_malformed_row` on one column. */
  function Restore(b: Buffer, s: Snapshot): Buffer
    requires Covers(b, s)
  {
    b.(length := s.length, nulls := s.nulls, numbers := b.numbers[..s.numbers], flags := b.flags[..s.flags],
       validity := b.validity[..s.validity], offsets := b.offsets[..s.offsets], text := b.text[..s.text])
  }

  lemma AppendCovers(b: Buffer, cell: Cell)
    ensures Covers(Append(b, cell), Snap(b))
  {
  }

  /** A column after one of the row's cells was appended and the row aborted. */
  function Aborted(b: Buffer, cell: Cell): Buffer {
    AppendCovers(b, cell);
    Restore(Append(b, cell), Snap(b))
  }

  /** Cutting the bytes back keeps the bits below. */
  lemma CutBack(bits: seq<Byte>, n: nat, value: bool)
    requires |bits| == Bytes(n)
    ensures |PutBit(bits, n, value)| >= |bits| && Rows(PutBit(bits, n, value)[..|bits|], n) == Rows(bits, n)
  {
    forall i: nat | i < n ensures At(PutBit(bits, n, value)[..|bits|], i) == At(bits, i) {
      PutBitAt(bits, n, value, i);
    }
  }

  /** An abort restores everything but the packed bits beyond the last row. */
  lemma AbortRestores(b: Buffer, rows: nat, cell: Cell)
    requires Aligned(b, rows) && Fits(b.kind, cell)
    ensures var a := Aborted(b, cell);
            && a == b.(flags := a.flags, validity := a.validity)
            && Aligned(a, rows)
            && (b.kind.Flags? ==> Rows(a.flags, rows) == Rows(b.flags, rows))
            && (b.nullable ==> Rows(a.validity, rows) == Rows(b.validity, rows))
  {
    if b.kind.Flags? { CutBack(b.flags, rows, cell == Flag(true)); }
    if b.nullable { CutBack(b.validity, rows, !cell.Null?); }
    hide At, Rows, SetMask;
  }

  /** An abort keeps the values of the rows before it. */
  lemma AbortCarries(b: Buffer, cells: seq<Cell>, cell: Cell)
    requires Carries(b, cells) && Fits(b.kind, cell)
    ensures Carries(Aborted(b, cell), cells)
  {
    CarriesAligned(b, cells);
    AbortRestores(b, |cells|, cell);
    hide Aborted, TextOf, OffsetsOf, NullsOf, NumbersOf;
  }

  /** A cell that an abort takes back without a trace: no value in a nullable column, no true anywhere. */
  predicate Harmless(nullable: bool, cell: Cell) {
    (nullable ==> cell.Null?) && cell != Flag(true)
  }

  lemma RoomCutBack(bits: seq<Byte>, index: nat)
    ensures Room(bits, index)[..|bits|] == bits
  {
  }

  lemma HarmlessAbort(b: Buffer, rows: nat, cell: Cell)
    requires Aligned(b, rows) && Fits(b.kind, cell) && Harmless(b.nullable, cell)
    ensures Aborted(b, cell) == b
  {
    hide At, Rows, SetMask, Room;
    AbortRestores(b, rows, cell);
    RoomCutBack(b.flags, rows);
    RoomCutBack(b.validity, rows);
  }

  /** An abort takes a cell back without a trace from every column of the type exactly when it is harmless. */
  lemma AbortUndoneIff(kind: Kind, nullable: bool, cell: Cell)
    requires Fits(kind, cell)
    ensures Harmless(nullable, cell) <==>
            forall b: Buffer, rows: nat | Aligned(b, rows) && b.kind == kind && b.nullable == nullable :: Aborted(b, cell) == b
  {
    if Harmless(nullable, cell) {
      forall b: Buffer, rows: nat | Aligned(b, rows) && b.kind == kind && b.nullable == nullable ensures Aborted(b, cell) == b {
        HarmlessAbort(b, rows, cell);
      }
    } else {
      var empty := Fresh(kind, nullable);
      var b := Append(empty, Null);
      FreshRepresents(kind, nullable);
      AppendRepresents(empty, [], Null);
      AppendAligned(empty, 0, Null);
      assert [] + [Null] == [Null];
      if Aborted(b, cell) == b {
        TraceShows(b, cell);
      }
    }
  }

  /** What one aborted row behind a null leaves behind shows in the next row. */
  lemma TraceShows(b: Buffer, cell: Cell)
    requires Represents(b, [Null]) && Fits(b.kind, cell) && !Harmless(b.nullable, cell)
    ensures Aborted(b, cell) != b
  {
    if b.nullable && !cell.Null? {
      NextNullIff(b, [Null], cell);
      NextNullIff(b, [Null], Null);
      HarmlessAbort(b, 1, Null);
    } else {
      NextFalseIff(b, [Null], cell);
      NextFalseIff(b, [Null], Flag(false));
      HarmlessAbort(b, 1, Flag(false));
    }
  }

  /** How a row reads afterwards: a column without validity bytes has no nulls. */
  predicate ReadsValid(b: Buffer, i: nat)
    requires b.validity == [] || i < 8 * |b.validity|
  {
    b.validity == [] || At(b.validity, i)
  }

  /** The next null behind an aborted row reads as a value exactly when the abort left a validity bit set
      inside a byte that the column keeps. */
  lemma NextNullIff(b: Buffer, cells: seq<Cell>, cell: Cell)
    requires Represents(b, cells) && Fits(b.kind, cell) && b.nullable
    ensures |Append(Aborted(b, cell), Null).validity| == Bytes(|cells| + 1)
    ensures ReadsValid(Append(Aborted(b, cell), Null), |cells|) <==> !cell.Null? && |cells| % 8 != 0
  {
    var n, a := |cells|, Aborted(b, cell);
    if n % 8 != 0 {
      PutBitAt(b.validity, n, !cell.Null?, n);
      assert !At(b.validity, n);
    }
    PutBitAt(a.validity, n, false, n);
  }

  /** The same for a false behind an aborted true. */
  lemma NextFalseIff(b: Buffer, cells: seq<Cell>, cell: Cell)
    requires Represents(b, cells) && Fits(b.kind, cell) && b.kind.Flags?
    ensures |Append(Aborted(b, cell), Flag(false)).flags| == Bytes(|cells| + 1)
    ensures At(Append(Aborted(b, cell), Flag(false)).flags, |cells|) <==> cell == Flag(true) && |cells| % 8 != 0
  {
    var n, a := |cells|, Aborted(b, cell);
    if n % 8 != 0 {
      PutBitAt(b.flags, n, cell == Flag(true), n);
      assert !At(b.flags, n);
    }
    PutBitAt(a.flags, n, false, n);
  }
}
