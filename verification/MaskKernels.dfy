/** The byte kernels: every one of them writes exactly one digit per row and zero padding. */
module MaskKernels {
  import opened Bits
  import opened ByteMask

  function AndRows(a: seq<bool>, b: seq<bool>): (c: seq<bool>)
    requires |a| == |b|
    ensures |c| == |a|
  {
    seq(|a|, i requires 0 <= i < |a| => a[i] && b[i])
  }

  function OrRows(a: seq<bool>, b: seq<bool>): (c: seq<bool>)
    requires |a| == |b|
    ensures |c| == |a|
  {
    seq(|a|, i requires 0 <= i < |a| => a[i] || b[i])
  }

  function NotRows(a: seq<bool>): (c: seq<bool>)
    ensures |c| == |a|
  {
    seq(|a|, i requires 0 <= i < |a| => !a[i])
  }

  function NoRows(n: nat): (c: seq<bool>)
    ensures |c| == n
  {
    seq(n, _ => false)
  }

  /** A mask that stands for `rows` and keeps its padding zero. */
  ghost predicate Encodes(mask: seq<Byte>, rows: seq<bool>) {
    && |mask| == Bytes(|rows|)
    && Rows(mask, |rows|) == rows
    && Clean(mask, |rows|)
  }

  /** Digit k of byte j is row 8 * j + k, or padding. */
  ghost predicate EncodesByte(byte: Byte, j: nat, rows: seq<bool>) {
    forall k: nat | k < 8 :: Bit(byte, k) == (8 * j + k < |rows| && rows[8 * j + k])
  }

  lemma EncodesByBytes(mask: seq<Byte>, rows: seq<bool>)
    requires |mask| == Bytes(|rows|)
    ensures Encodes(mask, rows) <==> forall j: nat | j < |mask| :: EncodesByte(mask[j], j, rows)
  {
    var n := |rows|;
    if forall j: nat | j < |mask| :: EncodesByte(mask[j], j, rows) {
      forall i: nat | i < 8 * |mask| ensures At(mask, i) == (i < n && rows[i]) {
        assert EncodesByte(mask[i / 8], i / 8, rows);
        assert 8 * (i / 8) + i % 8 == i;
      }
      assert Rows(mask, n) == rows;
    }
    if Encodes(mask, rows) {
      forall j: nat, k: nat | j < |mask| && k < 8
        ensures Bit(mask[j], k) == (8 * j + k < n && rows[8 * j + k])
      {
        var i := 8 * j + k;
        assert i / 8 == j && i % 8 == k;
        if i < n { assert Rows(mask, n)[i] == At(mask, i); } else { assert !At(mask, i); }
      }
    }
  }

  // The kernels on values: what each one leaves in its destination, byte by byte.

  function AndMask(a: seq<Byte>, b: seq<Byte>): (c: seq<Byte>)
    requires |a| == |b|
  {
    seq(|a|, j requires 0 <= j < |a| => And(a[j], b[j]))
  }

  function OrByte(a: Byte, b: Byte): Byte {
    BytePow();
    OrBound(a, b, 8);
    Or(a, b)
  }

  function OrMask(a: seq<Byte>, b: seq<Byte>): (c: seq<Byte>)
    requires |a| == |b|
  {
    seq(|a|, j requires 0 <= j < |a| => OrByte(a[j], b[j]))
  }

  /** `(1 << (n & 7)) - 1`, the rows present in the last byte. */
  function TailMask(n: nat): Byte
    requires n % 8 != 0
  {
    BytePow();
    Pow2Less(n % 8, 8);
    Pow2(n % 8) - 1
  }

  function ClearPadding(mask: seq<Byte>, n: nat): (c: seq<Byte>)
    requires |mask| == Bytes(n)
    ensures |c| == |mask|
  {
    if n % 8 == 0 then mask else mask[|mask| - 1 := And(mask[|mask| - 1], TailMask(n))]
  }

  function NotByte(a: Byte): Byte {
    BytePow();
    Not(8, a)
  }

  function NotMask(a: seq<Byte>, n: nat): (c: seq<Byte>)
    requires |a| == Bytes(n)
  {
    ClearPadding(seq(|a|, j requires 0 <= j < |a| => NotByte(a[j])), n)
  }

  function SetMask(mask: seq<Byte>, idx: nat): (c: seq<Byte>)
    requires idx / 8 < |mask|
  {
    mask[idx / 8 := BytePow(); Pow2Less(idx % 8, 8); OrByte(mask[idx / 8], Pow2(idx % 8))]
  }

  lemma {:induction false} Pow2Less(a: nat, b: nat)
    requires a < b
    ensures Pow2(a) < Pow2(b)
  {
    if a + 1 < b { Pow2Less(a, b - 1); }
  }

  lemma AndMaskRows(a: seq<Byte>, b: seq<Byte>, rows: seq<bool>, other: seq<bool>)
    requires |rows| == |other| && Encodes(a, rows) && Encodes(b, other)
    ensures Encodes(AndMask(a, b), AndRows(rows, other))
  {
    EncodesByBytes(a, rows);
    EncodesByBytes(b, other);
    forall j: nat | j < |a| ensures EncodesByte(AndMask(a, b)[j], j, AndRows(rows, other)) {
      assert EncodesByte(a[j], j, rows) && EncodesByte(b[j], j, other);
      forall k: nat | k < 8 ensures Bit(And(a[j], b[j]), k) == (Bit(a[j], k) && Bit(b[j], k)) { AndBit(a[j], b[j], k); }
    }
    EncodesByBytes(AndMask(a, b), AndRows(rows, other));
  }

  lemma OrMaskRows(a: seq<Byte>, b: seq<Byte>, rows: seq<bool>, other: seq<bool>)
    requires |rows| == |other| && Encodes(a, rows) && Encodes(b, other)
    ensures Encodes(OrMask(a, b), OrRows(rows, other))
  {
    EncodesByBytes(a, rows);
    EncodesByBytes(b, other);
    forall j: nat | j < |a| ensures EncodesByte(OrMask(a, b)[j], j, OrRows(rows, other)) {
      assert EncodesByte(a[j], j, rows) && EncodesByte(b[j], j, other);
      forall k: nat | k < 8 ensures Bit(Or(a[j], b[j]), k) == (Bit(a[j], k) || Bit(b[j], k)) { OrBit(a[j], b[j], k); }
    }
    EncodesByBytes(OrMask(a, b), OrRows(rows, other));
  }

  /** Clearing the padding turns a mask with the right rows into a clean one. */
  lemma ClearPaddingRows(mask: seq<Byte>, rows: seq<bool>)
    requires |mask| == Bytes(|rows|) && Rows(mask, |rows|) == rows
    ensures Encodes(ClearPadding(mask, |rows|), rows)
  {
    var n, c := |rows|, ClearPadding(mask, |rows|);
    forall i: nat | i < 8 * |c| ensures At(c, i) == (i < n && rows[i]) {
      if i < n { assert Rows(mask, n)[i] == At(mask, i); }
      if n % 8 != 0 && i / 8 == n / 8 {
        AndBit(mask[i / 8], TailMask(n), i % 8);
        LowMaskBit(n % 8, i % 8);
      }
    }
    assert Rows(c, n) == rows;
  }

  lemma NotMaskRows(a: seq<Byte>, rows: seq<bool>)
    requires Encodes(a, rows)
    ensures Encodes(NotMask(a, |rows|), NotRows(rows))
  {
    var n := |rows|;
    var c := seq(|a|, j requires 0 <= j < |a| => NotByte(a[j]));
    forall i: nat | i < n ensures At(c, i) == !rows[i] {
      BytePow();
      NotBit(8, a[i / 8], i % 8);
      assert Rows(a, n)[i] == At(a, i);
    }
    assert Rows(c, n) == NotRows(rows);
    ClearPaddingRows(c, NotRows(rows));
  }

  lemma SetMaskRows(mask: seq<Byte>, idx: nat, rows: seq<bool>)
    requires idx < |rows| && Encodes(mask, rows)
    ensures Encodes(SetMask(mask, idx), rows[idx := true])
  {
    var n, c := |rows|, SetMask(mask, idx);
    forall i: nat | i < 8 * |c| ensures At(c, i) == (At(mask, i) || i == idx) {
      OrBit(mask[idx / 8], Pow2(idx % 8), i % 8);
      Pow2Bit(idx % 8, i % 8);
    }
    forall i: nat | i < n ensures At(c, i) == rows[idx := true][i] {
      assert Rows(mask, n)[i] == At(mask, i);
    }
    assert Rows(c, n) == rows[idx := true];
  }

  /** `and_into`. */
  method AndInto(dst: array<Byte>, src: array<Byte>)
    requires dst != src && dst.Length == src.Length
    modifies dst
    ensures dst[..] == AndMask(old(dst[..]), src[..])
  {
    var i := 0;
    while i < dst.Length
      invariant 0 <= i <= dst.Length
      invariant forall j | 0 <= j < dst.Length :: dst[j] == if j < i then And(old(dst[j]), src[j]) else old(dst[j])
    {
      dst[i] := And(dst[i], src[i]);
      i := i + 1;
    }
  }

  /** `or_into`: the eight byte lanes of a word at a time, then the tail. */
  method OrInto(dst: array<Byte>, src: array<Byte>)
    requires dst != src && dst.Length == src.Length
    modifies dst
    ensures dst[..] == OrMask(old(dst[..]), src[..])
  {
    var i := 0;
    while i + 8 <= dst.Length
      invariant 0 <= i <= dst.Length
      invariant forall j | 0 <= j < dst.Length :: dst[j] == if j < i then OrByte(old(dst[j]), src[j]) else old(dst[j])
    {
      forall j | i <= j < i + 8 {
        dst[j] := OrByte(dst[j], src[j]);
      }
      i := i + 8;
    }
    while i < dst.Length
      invariant 0 <= i <= dst.Length
      invariant forall j | 0 <= j < dst.Length :: dst[j] == if j < i then OrByte(old(dst[j]), src[j]) else old(dst[j])
    {
      dst[i] := OrByte(dst[i], src[i]);
      i := i + 1;
    }
  }

  /** `bitwise_not`: complement every byte, then clear the padding of the last one. */
  method BitwiseNot(input: array<Byte>, out: array<Byte>, n: nat)
    requires input != out && input.Length == out.Length == Bytes(n)
    modifies out
    ensures out[..] == NotMask(input[..], n)
  {
    var i := 0;
    while i < out.Length
      invariant 0 <= i <= out.Length
      invariant forall j | 0 <= j < i :: out[j] == NotByte(input[j])
    {
      out[i] := NotByte(input[i]);
      i := i + 1;
    }
    ghost var bytes := input[..];
    assert out[..] == seq(|bytes|, j requires 0 <= j < |bytes| => NotByte(bytes[j]));
    var tail := n % 8;
    if tail != 0 {
      out[out.Length - 1] := And(out[out.Length - 1], TailMask(n));
    }
  }

  /** `set_bit` on a mask. */
  method SetBit(mask: array<Byte>, idx: nat)
    requires idx / 8 < mask.Length
    modifies mask
    ensures mask[..] == SetMask(old(mask[..]), idx)
  {
    BytePow();
    Pow2Less(idx % 8, 8);
    mask[idx / 8] := OrByte(mask[idx / 8], Pow2(idx % 8));
  }
}
