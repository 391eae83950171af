/** The scalar predicate kernels, which pack eight row tests into a byte, and the
    zone-map shortcut that writes a whole morsel's mask without looking at its rows. */
module LeafKernels {
  import opened Bits
  import opened Casts
  import opened Comparisons
  import opened ByteMask
  import opened MaskKernels
  import opened Optional

  /** What a kernel answers for each row: the test, and false on a null. */
  function KernelRows<T>(data: seq<T>, test: T -> bool, valid: seq<bool>): (rows: seq<bool>)
    requires |valid| == |data|
    ensures |rows| == |data|
  {
    seq(|data|, i requires 0 <= i < |data| => test(data[i]) && valid[i])
  }

  /** A validity buffer, from the morsel's first byte on, shows which rows are not null; there is none without nulls. */
  ghost predicate Shows(validity: Option<seq<Byte>>, valid: seq<bool>) {
    match validity
    case None => forall i | 0 <= i < |valid| :: valid[i]
    case Some(bytes) => Bytes(|valid|) <= |bytes| && Rows(bytes, |valid|) == valid
  }

  /** Row bits gathered so far in one output byte. */
  ghost predicate PackedByte<T>(byte: Byte, data: seq<T>, test: T -> bool, base: nat, count: nat)
    requires base + count <= |data|
  {
    forall k: nat :: Bit(byte, k) == (k < count && test(data[base + k]))
  }

  /** The inner loop of every kernel: up to eight tests into one byte. */
  method PackByte<T>(data: seq<T>, test: T -> bool, base: nat, count: nat) returns (byte: Byte)
    requires count <= 8 && base + count <= |data|
    ensures PackedByte(byte, data, test, base, count)
  {
    byte := 0;
    var i := 0;
    forall k: nat ensures !Bit(0, k) { ZeroBit(k); }
    while i < count
      invariant 0 <= i <= count
      invariant PackedByte(byte, data, test, base, i)
    {
      if test(data[base + i]) {
        forall k: nat ensures Bit(Or(byte, Pow2(i)), k) == (Bit(byte, k) || k == i) {
          OrBit(byte, Pow2(i), k);
          Pow2Bit(i, k);
        }
        BytePow();
        Pow2Less(i, 8);
        byte := OrByte(byte, Pow2(i));
      }
      i := i + 1;
    }
  }

  /** The byte stored for rows `base` on: packed tests, ANDed with the validity byte when there is one. */
  method KernelByte<T>(data: seq<T>, test: T -> bool, validity: Option<seq<Byte>>, ghost valid: seq<bool>, j: nat, count: nat)
    returns (byte: Byte)
    requires |valid| == |data| && 0 < count <= 8 && 8 * j + count <= |data|
    requires (count == 8 || 8 * j + count == |data|) && Shows(validity, valid)
    ensures EncodesByte(byte, j, KernelRows(data, test, valid))
  {
    byte := PackByte(data, test, 8 * j, count);
    ghost var rows := KernelRows(data, test, valid);
    if validity.Some? {
      ghost var packed := byte;
      byte := And(byte, validity.value[j]);
      forall k: nat | k < 8 ensures Bit(byte, k) == (8 * j + k < |data| && rows[8 * j + k]) {
        AndBit(packed, validity.value[j], k);
        if k < count {
          assert (8 * j + k) / 8 == j && (8 * j + k) % 8 == k;
          assert Rows(validity.value, |data|)[8 * j + k] == At(validity.value, 8 * j + k);
        }
      }
    }
  }

  /** `eval_num_scalar`, `eval_range` and the dictionary kernels, which differ only in the row test:
      full bytes first, then the remainder.  `out` is the uninitialised destination. */
  method EvalKernel<T>(data: seq<T>, test: T -> bool, validity: Option<seq<Byte>>, ghost valid: seq<bool>, out: array<Byte>)
    requires |valid| == |data| && out.Length == Bytes(|data|) && Shows(validity, valid)
    modifies out
    ensures Encodes(out[..], KernelRows(data, test, valid))
  {
    var n := |data|;
    var nb := n / 8;
    ghost var rows := KernelRows(data, test, valid);
    var b := 0;
    while b < nb
      invariant 0 <= b <= nb
      invariant forall j: nat | j < b :: EncodesByte(out[j], j, rows)
    {
      var byte := KernelByte(data, test, validity, valid, b, 8);
      out[b] := byte;
      b := b + 1;
    }
    var rem := n - nb * 8;
    if rem != 0 {
      var byte := KernelByte(data, test, validity, valid, nb, rem);
      out[nb] := byte;
    }
    EncodesByBytes(out[..], rows);
  }

  lemma FullBytes(mask: seq<Byte>, n: nat)
    requires |mask| == Bytes(n) && forall j | 0 <= j < |mask| :: mask[j] == 255
    ensures Rows(mask, n) == seq(n, _ => true)
  {
    forall k: nat | k < 8 ensures Bit(255, k) { BytePow(); LowMaskBit(8, k); }
  }

  /** `fill_true`. */
  method FillTrue(mask: array<Byte>, n: nat)
    requires mask.Length == Bytes(n)
    modifies mask
    ensures Encodes(mask[..], seq(n, _ => true))
  {
    var i := 0;
    while i < mask.Length
      invariant 0 <= i <= mask.Length
      invariant forall j | 0 <= j < i :: mask[j] == 255
    {
      mask[i] := 255;
      i := i + 1;
    }
    FullBytes(mask[..], n);
    ClearPaddingRows(mask[..], seq(n, _ => true));
    var tail := n % 8;
    if tail != 0 {
      mask[mask.Length - 1] := And(mask[mask.Length - 1], TailMask(n));
    }
  }

  method FillFalse(mask: array<Byte>, n: nat)
    requires mask.Length == Bytes(n)
    modifies mask
    ensures Encodes(mask[..], NoRows(n))
  {
    var i := 0;
    while i < mask.Length
      invariant 0 <= i <= mask.Length
      invariant forall j | 0 <= j < i :: mask[j] == 0
    {
      mask[i] := 0;
      i := i + 1;
    }
    forall k: nat ensures !Bit(0, k) { ZeroBit(k); }
    EncodesByBytes(mask[..], NoRows(n));
  }

  function NullRows(valid: seq<bool>, isNull: bool): (rows: seq<bool>)
    ensures |rows| == |valid|
  {
    seq(|valid|, i requires 0 <= i < |valid| => valid[i] != isNull)
  }

  lemma NullBytes(validity: seq<Byte>, valid: seq<bool>, isNull: bool, out: seq<Byte>)
    requires |validity| >= |out| == Bytes(|valid|) && Rows(validity, |valid|) == valid
    requires forall j | 0 <= j < |out| :: out[j] == if isNull then NotByte(validity[j]) else validity[j]
    ensures Rows(out, |valid|) == NullRows(valid, isNull)
  {
    forall r: nat | r < |valid| ensures At(out, r) == NullRows(valid, isNull)[r] {
      BytePow();
      NotBit(8, validity[r / 8], r % 8);
      assert Rows(validity, |valid|)[r] == At(validity, r);
    }
  }

  /** `eval_null_predicate`: IS_NULL is the complement of the validity digits, IS_NOT_NULL a copy;
      both clear the padding, which a validity buffer need not keep zero. */
  method EvalNull(validity: Option<seq<Byte>>, ghost valid: seq<bool>, isNull: bool, out: array<Byte>, n: nat)
    requires |valid| == n && out.Length == Bytes(n) && Shows(validity, valid)
    modifies out
    ensures Encodes(out[..], NullRows(valid, isNull))
  {
    if validity.None? {
      if isNull {
        FillFalse(out, n);
        assert NoRows(n) == NullRows(valid, isNull);
      } else {
        FillTrue(out, n);
        assert seq(n, _ => true) == NullRows(valid, isNull);
      }
      return;
    }
    var i := 0;
    while i < out.Length
      invariant 0 <= i <= out.Length
      invariant forall j | 0 <= j < i :: out[j] == if isNull then NotByte(validity.value[j]) else validity.value[j]
    {
      out[i] := if isNull then NotByte(validity.value[i]) else validity.value[i];
      i := i + 1;
    }
    NullBytes(validity.value, valid, isNull, out[..]);
    ClearPaddingRows(out[..], NullRows(valid, isNull));
    var tail := n % 8;
    if tail != 0 {
      out[out.Length - 1] := And(out[out.Length - 1], TailMask(n));
    }
  }

  // ---- Zone maps --------------------------------------------------------------------------------

  datatype Zone = Zone(min: real, max: real)

  ghost predicate ZoneOf(zone: Zone, data: seq<real>) {
    && zone.min in data && zone.max in data
    && forall i | 0 <= i < |data| :: zone.min <= data[i] <= zone.max
  }

  /** `compute_zone`. */
  method ComputeZone(data: seq<real>) returns (zone: Zone)
    requires data != []
    ensures ZoneOf(zone, data)
  {
    var mn, mx := data[0], data[0];
    for i := 1 to |data|
      invariant mn in data && mx in data
      invariant forall j | 0 <= j < i :: mn <= data[j] <= mx
    {
      if data[i] < mn { mn := data[i]; }
      if data[i] > mx { mx := data[i]; }
    }
    return Zone(mn, mx);
  }

  datatype Verdict = Unknown | AllFalse | AllTrue

  /** The decision `try_zone_numeric` takes before it writes anything. */
  function ZoneNumeric(op: NumOp, threshold: real, zone: Zone): Verdict {
    var allFalse := match op
      case GT => zone.max <= threshold
      case GTE => zone.max < threshold
      case LT => zone.min >= threshold
      case LTE => zone.min > threshold
      case EQ => threshold < zone.min || threshold > zone.max
      case NEQ => zone.min == threshold && zone.max == threshold;
    var allTrue := match op
      case GT => zone.min > threshold
      case GTE => zone.min >= threshold
      case LT => zone.max < threshold
      case LTE => zone.max <= threshold
      case EQ => false
      case NEQ => threshold < zone.min || threshold > zone.max;
    if allFalse then AllFalse else if allTrue then AllTrue else Unknown
  }

  /** The decision of `try_zone_range`. */
  function ZoneRange(including: bool, lower: real, upper: real, zone: Zone): Verdict {
    var allFalse := if including then zone.max < lower || zone.min > upper else zone.max <= lower || zone.min >= upper;
    var allTrue := if including then zone.min >= lower && zone.max <= upper else zone.min > lower && zone.max < upper;
    if allFalse then AllFalse else if allTrue then AllTrue else Unknown
  }

  function AllValid(n: nat): seq<bool> {
    seq(n, _ => true)
  }

  /** The mask a verdict stands for. */
  function VerdictRows(verdict: Verdict, n: nat): seq<bool>
    requires verdict != Unknown
  {
    seq(n, _ => verdict == AllTrue)
  }

  // ---- Zone maps and kernels -------------------------------------------------------------------------------

  ghost predicate Column(t: NumType, data: seq<real>) {
    forall i | 0 <= i < |data| :: Value(t, data[i])
  }

  /** The numeric kernels compare with the converted threshold. */
  function NumericTest(t: NumType, wild: real -> real, op: NumOp, threshold: real): real -> bool {
    v => Compare(op, v, Cast(t, wild, threshold))
  }

  function RangeTest(t: NumType, wild: real -> real, including: bool, lower: real, upper: real): real -> bool {
    v => InRange(including, Cast(t, wild, lower), Cast(t, wild, upper), v)
  }

  /** The shortcut's mask is the kernel's on every morsel of the column type and on every machine. */
  ghost predicate NumericZoneAgrees(t: NumType, op: NumOp, threshold: real) {
    forall wild: real -> real, data: seq<real>, zone: Zone ::
      Wild(t, wild) && Column(t, data) && ZoneOf(zone, data) && ZoneNumeric(op, threshold, zone) != Unknown
      ==> VerdictRows(ZoneNumeric(op, threshold, zone), |data|) == KernelRows(data, NumericTest(t, wild, op, threshold), AllValid(|data|))
  }

  /** On null-free columns the numeric shortcut and the kernel agree exactly when the conversion of the threshold
      is defined and moves it to the harmless side. */
  lemma ZoneAgreesIff(t: NumType, op: NumOp, threshold: real)
    requires Sane(t)
    ensures CastExact(t, op, threshold) <==> NumericZoneAgrees(t, op, threshold)
  {
    if CastExact(t, op, threshold) {
      forall wild: real -> real, data: seq<real>, zone: Zone |
        Wild(t, wild) && Column(t, data) && ZoneOf(zone, data) && ZoneNumeric(op, threshold, zone) != Unknown
        ensures VerdictRows(ZoneNumeric(op, threshold, zone), |data|) == KernelRows(data, NumericTest(t, wild, op, threshold), AllValid(|data|))
      {
        NumericVerdict(t, wild, op, threshold, data, zone);
      }
    } else {
      var wild, v := CastFails(t, op, threshold);
      var data, zone := [v], Zone(v, v);
      assert data[0] == v && ZoneOf(zone, data) && Column(t, data);
      assert VerdictRows(ZoneNumeric(op, threshold, zone), 1)[0] == Compare(op, v, threshold);
      assert KernelRows(data, NumericTest(t, wild, op, threshold), AllValid(1))[0] != Compare(op, v, threshold);
    }
  }

  lemma NumericVerdict(t: NumType, wild: real -> real, op: NumOp, threshold: real, data: seq<real>, zone: Zone)
    requires Sane(t) && CastExact(t, op, threshold) && Wild(t, wild)
    requires Column(t, data) && ZoneOf(zone, data) && ZoneNumeric(op, threshold, zone) != Unknown
    ensures VerdictRows(ZoneNumeric(op, threshold, zone), |data|) == KernelRows(data, NumericTest(t, wild, op, threshold), AllValid(|data|))
  {
    CastExactIff(t, op, threshold);
    hide CastExact, Cast, Value;
    forall i | 0 <= i < |data|
      ensures VerdictRows(ZoneNumeric(op, threshold, zone), |data|)[i]
           == KernelRows(data, NumericTest(t, wild, op, threshold), AllValid(|data|))[i]
    {
      assert zone.min <= data[i] <= zone.max && Value(t, data[i]);
      assert SameTest(t, wild, op, threshold, data[i]);
    }
  }

  ghost predicate RangeZoneAgrees(t: NumType, including: bool, lower: real, upper: real) {
    forall wild: real -> real, data: seq<real>, zone: Zone ::
      Wild(t, wild) && Column(t, data) && ZoneOf(zone, data) && ZoneRange(including, lower, upper, zone) != Unknown
      ==> VerdictRows(ZoneRange(including, lower, upper, zone), |data|) == KernelRows(data, RangeTest(t, wild, including, lower, upper), AllValid(|data|))
  }

  /** The range shortcuts agree with the range kernels exactly when converting the bounds changes no answer. */
  lemma ZoneRangeAgreesIff(t: NumType, including: bool, lower: real, upper: real)
    requires Sane(t)
    ensures RangeCastExact(t, including, lower, upper) <==> RangeZoneAgrees(t, including, lower, upper)
  {
    RangeCastExactIff(t, including, lower, upper);
    if RangeCastExact(t, including, lower, upper) {
      forall wild: real -> real, data: seq<real>, zone: Zone |
        Wild(t, wild) && Column(t, data) && ZoneOf(zone, data) && ZoneRange(including, lower, upper, zone) != Unknown
        ensures VerdictRows(ZoneRange(including, lower, upper, zone), |data|) == KernelRows(data, RangeTest(t, wild, including, lower, upper), AllValid(|data|))
      {
        RangeVerdict(t, wild, including, lower, upper, data, zone);
      }
    } else {
      var wild: real -> real, v: real :| Wild(t, wild) && Value(t, v) && !SameRange(t, wild, including, lower, upper, v);
      var data, zone := [v], Zone(v, v);
      assert data[0] == v && ZoneOf(zone, data) && Column(t, data);
      assert VerdictRows(ZoneRange(including, lower, upper, zone), 1)[0] == InRange(including, lower, upper, v);
      assert KernelRows(data, RangeTest(t, wild, including, lower, upper), AllValid(1))[0] != InRange(including, lower, upper, v);
    }
  }

  lemma RangeVerdict(t: NumType, wild: real -> real, including: bool, lower: real, upper: real, data: seq<real>, zone: Zone)
    requires forall v: real | Value(t, v) :: SameRange(t, wild, including, lower, upper, v)
    requires Column(t, data) && ZoneOf(zone, data) && ZoneRange(including, lower, upper, zone) != Unknown
    ensures VerdictRows(ZoneRange(including, lower, upper, zone), |data|) == KernelRows(data, RangeTest(t, wild, including, lower, upper), AllValid(|data|))
  {
    hide Cast, Value;
    forall i | 0 <= i < |data|
      ensures VerdictRows(ZoneRange(including, lower, upper, zone), |data|)[i]
           == KernelRows(data, RangeTest(t, wild, including, lower, upper), AllValid(|data|))[i]
    {
      assert zone.min <= data[i] <= zone.max && Value(t, data[i]);
      assert SameRange(t, wild, including, lower, upper, data[i]);
    }
  }

  /** Leaves the mask of a verdict behind, or nothing when the rows have to be looked at. */
  method WriteVerdict(verdict: Verdict, out: array<Byte>, n: nat) returns (fired: bool)
    requires out.Length == Bytes(n)
    modifies out
    ensures fired <==> verdict != Unknown
    ensures fired ==> Encodes(out[..], VerdictRows(verdict, n))
    ensures !fired ==> out[..] == old(out[..])
  {
    match verdict
    case AllFalse =>
      FillFalse(out, n);
      assert NoRows(n) == VerdictRows(AllFalse, n);
      fired := true;
    case AllTrue =>
      FillTrue(out, n);
      assert AllValid(n) == VerdictRows(AllTrue, n);
      fired := true;
    case Unknown =>
      fired := false;
  }

  /** `try_zone_numeric`: report whether the shortcut fired, and leave its mask behind if it did. */
  method TryZoneNumeric(op: NumOp, threshold: real, zone: Zone, out: array<Byte>, n: nat) returns (fired: bool)
    requires out.Length == Bytes(n)
    modifies out
    ensures fired <==> ZoneNumeric(op, threshold, zone) != Unknown
    ensures fired ==> Encodes(out[..], VerdictRows(ZoneNumeric(op, threshold, zone), n))
    ensures !fired ==> out[..] == old(out[..])
  {
    fired := WriteVerdict(ZoneNumeric(op, threshold, zone), out, n);
  }

  /** `try_zone_range`. */
  method TryZoneRange(including: bool, lower: real, upper: real, zone: Zone, out: array<Byte>, n: nat) returns (fired: bool)
    requires out.Length == Bytes(n)
    modifies out
    ensures fired <==> ZoneRange(including, lower, upper, zone) != Unknown
    ensures fired ==> Encodes(out[..], VerdictRows(ZoneRange(including, lower, upper, zone), n))
    ensures !fired ==> out[..] == old(out[..])
  {
    fired := WriteVerdict(ZoneRange(including, lower, upper, zone), out, n);
  }
}
