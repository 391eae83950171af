/** Putting the workers' columns end to end: values copied to their rows, bits copied one by one, offsets
    rebased. */
module ColumnMerge {
  import opened Bits
  import opened ByteMask
  import opened MaskKernels
  import opened ColumnBuffer

  function Flatten<A>(parts: seq<seq<A>>): seq<A> {
    if parts == [] then [] else Flatten(parts[..|parts| - 1]) + parts[|parts| - 1]
  }

  lemma FlattenNext<A>(parts: seq<seq<A>>, i: nat)
    requires i < |parts|
    ensures Flatten(parts[..i + 1]) == Flatten(parts[..i]) + parts[i]
  {
    assert parts[..i + 1][..i] == parts[..i];
  }

  lemma {:induction false} FlattenGrows<A>(parts: seq<seq<A>>, i: nat)
    requires i <= |parts|
    ensures |Flatten(parts[..i])| <= |Flatten(parts)|
    decreases |parts| - i
  {
    if i == |parts| {
      assert parts[..i] == parts;
    } else {
      FlattenNext(parts, i);
      FlattenGrows(parts, i + 1);
    }
  }

  /** One more part behind what is there. */
  lemma NextPart<A>(have: seq<A>, parts: seq<seq<A>>, i: nat)
    requires i < |parts|
    ensures have + Flatten(parts[..i + 1]) == (have + Flatten(parts[..i])) + parts[i]
    ensures |have + Flatten(parts[..i])| + |parts[i]| <= |have| + |Flatten(parts)|
  {
    FlattenNext(parts, i);
    FlattenGrows(parts, i + 1);
  }

  lemma FirstAndLast<A>(have: seq<A>, parts: seq<seq<A>>)
    ensures have + Flatten(parts[..0]) == have && parts[..|parts|] == parts
  {
  }

  // ---- Concatenated cells --------------------------------------------------------------------------------------

  lemma NoText()
    ensures TextOf([]) == ""
  {
  }

  lemma {:induction false} TextConcat(a: seq<Cell>, b: seq<Cell>)
    ensures TextOf(a + b) == TextOf(a) + TextOf(b)
    decreases |b|
  {
    hide *;
    if b == [] {
      assert a + b == a;
      NoText();
    } else {
      var init, cell := b[..|b| - 1], b[|b| - 1];
      assert b == init + [cell] && a + b == (a + init) + [cell];
      TextConcat(a, init);
      TextConcatOne(a, init, cell);
    }
  }

  lemma TextConcatOne(a: seq<Cell>, init: seq<Cell>, cell: Cell)
    requires TextOf(a + init) == TextOf(a) + TextOf(init)
    ensures TextOf((a + init) + [cell]) == TextOf(a) + TextOf(init + [cell])
  {
    hide *;
    OneMore(a + init, cell);
    OneMore(init, cell);
    if cell.Text? { Regroup(TextOf(a), TextOf(init), cell.s); }
  }

  lemma Regroup(x: string, y: string, z: string)
    ensures (x + y) + z == x + (y + z)
  {
  }

  lemma {:induction false} NullsConcat(a: seq<Cell>, b: seq<Cell>)
    ensures NullsOf(a + b) == NullsOf(a) + NullsOf(b)
    decreases |b|
  {
    if b == [] {
      assert a + b == a;
    } else {
      var last := |b| - 1;
      assert (a + b)[..|a + b| - 1] == a + b[..last];
      NullsConcat(a, b[..last]);
    }
  }

  /** Row o of the second list ends |text of the first| bytes later. */
  lemma {:induction false} OffsetsConcat(a: seq<Cell>, b: seq<Cell>, o: nat)
    requires o <= |b|
    ensures OffsetsOf(a + b)[|a| + o] == |TextOf(a)| + OffsetsOf(b)[o]
    decreases |b|
  {
    if o == |b| {
      TextConcat(a, b);
    } else {
      var last := |b| - 1;
      assert (a + b)[..|a + b| - 1] == a + b[..last];
      OffsetsConcat(a, b[..last], o);
    }
  }

  lemma {:induction false} OffsetsPrefix(a: seq<Cell>, b: seq<Cell>, o: nat)
    requires o <= |a|
    ensures OffsetsOf(a + b)[o] == OffsetsOf(a)[o]
    decreases |b|
  {
    if b == [] {
      assert a + b == a;
    } else {
      assert (a + b)[..|a + b| - 1] == a + b[..|b| - 1];
      OffsetsPrefix(a, b[..|b| - 1], o);
    }
  }

  // ---- Bits ---------------------------------------------------------------------------------------------------------

  /** The bytes hold the rows done so far and zeros behind them. */
  ghost predicate SoFar(bytes: seq<Byte>, done: seq<bool>) {
    forall k: nat | k < 8 * |bytes| :: At(bytes, k) == (k < |done| && done[k])
  }

  /** A source bitmap: an absent one stands for `implicitValue` in every row. */
  ghost predicate Reads(source: seq<Byte>, bits: seq<bool>, implicitValue: bool) {
    if source == [] then forall k | 0 <= k < |bits| :: bits[k] == implicitValue
    else |bits| <= 8 * |source| && Rows(source, |bits|) == bits
  }

  lemma SetMaskAt(mask: seq<Byte>, index: nat, k: nat)
    requires index < 8 * |mask| && k < 8 * |mask|
    ensures At(SetMask(mask, index), k) == (At(mask, k) || k == index)
  {
    OrBit(mask[index / 8], Pow2(index % 8), k % 8);
    Pow2Bit(index % 8, k % 8);
  }

  lemma SoFarNext(bytes: seq<Byte>, done: seq<bool>, value: bool)
    requires SoFar(bytes, done) && |done| < 8 * |bytes|
    ensures SoFar(if value then SetMask(bytes, |done|) else bytes, done + [value])
  {
    if value {
      forall k: nat | k < 8 * |bytes| ensures At(SetMask(bytes, |done|), k) == (k <= |done| && (done + [value])[k]) {
        SetMaskAt(bytes, |done|, k);
      }
    }
  }

  lemma SoFarEncodes(bytes: seq<Byte>, done: seq<bool>)
    requires SoFar(bytes, done) && |bytes| == Bytes(|done|)
    ensures Encodes(bytes, done)
  {
    assert Rows(bytes, |done|) == done;
  }

  /** `copy_bitmap`. */
  method CopyBitmap(source: seq<Byte>, rows: nat, destination: array<Byte>, base: nat, implicitValue: bool,
                    ghost bits: seq<bool>, ghost done: seq<bool>)
    requires |bits| == rows && Reads(source, bits, implicitValue)
    requires base == |done| && base + rows <= 8 * destination.Length && SoFar(destination[..], done)
    modifies destination
    ensures SoFar(destination[..], done + bits)
  {
    var row := 0;
    assert done + bits[..0] == done;
    while row < rows
      invariant 0 <= row <= rows
      invariant SoFar(destination[..], done + bits[..row])
    {
      var value := if source == [] then implicitValue else Digit(source[row / 8], row % 8);
      assert value == bits[row] by {
        if source != [] { assert Rows(source, |bits|)[row] == At(source, row); }
      }
      SoFarNext(destination[..], done + bits[..row], value);
      assert done + bits[..row + 1] == (done + bits[..row]) + [bits[row]];
      hide SoFar;
      if value { SetBit(destination, base + row); }
      row := row + 1;
    }
    assert bits[..rows] == bits;
  }

  /** `(byte >> k) & 1`. */
  predicate Digit(byte: Byte, k: nat) {
    Bit(byte, k)
  }

  /** A bitmap with its number of rows. */
  datatype Bitmap = Bitmap(bits: seq<Byte>, rows: nat)

  /** The bitmaps of consecutive stretches of rows. */
  ghost predicate BitmapsReady(first: Bitmap, sources: seq<Bitmap>, bases: seq<nat>, implicitValue: bool,
                               have: seq<bool>, parts: seq<seq<bool>>)
  {
    && first.rows == |have| && Reads(first.bits, have, implicitValue)
    && |sources| == |bases| == |parts|
    && forall i | 0 <= i < |sources| ::
         && sources[i].rows == |parts[i]| && Reads(sources[i].bits, parts[i], implicitValue)
         && bases[i] == |have| + |Flatten(parts[..i])|
  }

  method MergeBitmaps(first: Bitmap, sources: seq<Bitmap>, bases: seq<nat>, total: nat, implicitValue: bool,
                      ghost have: seq<bool>, ghost parts: seq<seq<bool>>) returns (bytes: seq<Byte>)
    requires total == |have| + |Flatten(parts)| && BitmapsReady(first, sources, bases, implicitValue, have, parts)
    ensures Encodes(bytes, have + Flatten(parts))
  {
    hide *;
    BitmapReady(first, sources, bases, implicitValue, have, parts);
    FirstAndLast(have, parts);
    var out := Blank(total);
    CopyBitmap(first.bits, first.rows, out, 0, implicitValue, have, []);
    assert [] + have == have;
    var i := 0;
    while i < |sources|
      invariant 0 <= i <= |sources| && 8 * out.Length >= total
      invariant SoFar(out[..], have + Flatten(parts[..i]))
    {
      NextPart(have, parts, i);
      BitmapReadyAt(first, sources, bases, implicitValue, have, parts, i);
      CopyBitmap(sources[i].bits, sources[i].rows, out, bases[i], implicitValue, parts[i], have + Flatten(parts[..i]));
      i := i + 1;
    }
    SoFarEncodes(out[..], have + Flatten(parts));
    return out[..];
  }

  /** The zero bytes of some rows. */
  method Blank(total: nat) returns (out: array<Byte>)
    ensures fresh(out) && out.Length == Bytes(total) && 8 * out.Length >= total && SoFar(out[..], [])
  {
    out := new Byte[Bytes(total)](_ => 0);
    forall k: nat ensures !Bit(0, k) { ZeroBit(k); }
  }

  lemma BitmapReady(first: Bitmap, sources: seq<Bitmap>, bases: seq<nat>, implicitValue: bool,
                    have: seq<bool>, parts: seq<seq<bool>>)
    requires BitmapsReady(first, sources, bases, implicitValue, have, parts)
    ensures first.rows == |have| && Reads(first.bits, have, implicitValue) && |sources| == |bases| == |parts|
  {
  }

  lemma BitmapReadyAt(first: Bitmap, sources: seq<Bitmap>, bases: seq<nat>, implicitValue: bool,
                      have: seq<bool>, parts: seq<seq<bool>>, i: nat)
    requires BitmapsReady(first, sources, bases, implicitValue, have, parts) && i < |sources|
    ensures i < |parts| && i < |bases| && sources[i].rows == |parts[i]| && Reads(sources[i].bits, parts[i], implicitValue)
    ensures bases[i] == |have| + |Flatten(parts[..i])|
  {
    hide Reads, Flatten;
  }

  // ---- Numbers and texts -------------------------------------------------------------------------------------------

  /** A copy to the rows from `base` on. */
  method CopyRows(source: seq<int>, destination: array<int>, base: nat)
    requires base + |source| <= destination.Length
    modifies destination
    ensures destination[..base] == old(destination[..base])
    ensures destination[base..base + |source|] == source
  {
    var k := 0;
    while k < |source|
      invariant 0 <= k <= |source|
      invariant destination[..base] == old(destination[..base])
      invariant destination[base..base + k] == source[..k]
    {
      destination[base + k] := source[k];
      k := k + 1;
    }
  }

  method MergeNumbers(first: seq<int>, sources: seq<seq<int>>, bases: seq<nat>, total: nat) returns (numbers: seq<int>)
    requires |sources| == |bases| && total == |first| + |Flatten(sources)|
    requires forall i | 0 <= i < |sources| :: bases[i] == |first| + |Flatten(sources[..i])|
    ensures numbers == first + Flatten(sources)
  {
    var out := new int[total](_ => 0);
    CopyRows(first, out, 0);
    var i := 0;
    FirstAndLast(first, sources);
    hide Flatten;
    while i < |sources|
      invariant 0 <= i <= |sources|
      invariant |first + Flatten(sources[..i])| <= total
      invariant out[..|first + Flatten(sources[..i])|] == first + Flatten(sources[..i])
    {
      NextPart(first, sources, i);
      ghost var done := first + Flatten(sources[..i]);
      CopyRows(sources[i], out, bases[i]);
      assert out[..|done| + |sources[i]|] == out[..|done|] + out[|done|..|done| + |sources[i]|];
      i := i + 1;
    }
    assert out[..] == out[..total];
    return out[..];
  }

  /** The entries behind the first of a worker's offsets, moved behind the bytes before. */
  method RebaseOffsets(source: seq<nat>, byteBase: nat, offsets: array<nat>, base: nat)
    requires source != [] && base + |source| <= offsets.Length
    modifies offsets
    ensures offsets[..base + 1] == old(offsets[..base + 1])
    ensures forall o | 1 <= o < |source| :: offsets[base + o] == byteBase + source[o]
  {
    var o := 1;
    while o < |source|
      invariant 1 <= o <= |source|
      invariant offsets[..base + 1] == old(offsets[..base + 1])
      invariant forall k | 1 <= k < o :: offsets[base + k] == byteBase + source[k]
    {
      offsets[base + o] := byteBase + source[o];
      o := o + 1;
    }
  }

  /** A worker's rebased offsets continue the offsets in front of them. */
  lemma OffsetsContinue(done: seq<Cell>, more: seq<Cell>, offsets: seq<nat>)
    requires |offsets| >= |done| + |more| + 1 && offsets[..|done| + 1] == OffsetsOf(done)
    requires forall o | 1 <= o <= |more| :: offsets[|done| + o] == |TextOf(done)| + OffsetsOf(more)[o]
    ensures offsets[..|done| + |more| + 1] == OffsetsOf(done + more)
  {
    hide *;
    assert Rebased(done, more, offsets) by { RebasedSo(done, more, offsets); }
    forall k | 0 <= k < |done| + |more| + 1 ensures offsets[k] == OffsetsOf(done + more)[k] {
      if k <= |done| {
        FrontOffset(done, more, offsets, k);
      } else {
        LaterOffset(done, more, offsets, k);
      }
    }
  }

  /** The offsets behind the first ones are those of the cells behind, moved by the bytes in front. */
  ghost predicate Rebased(done: seq<Cell>, more: seq<Cell>, offsets: seq<nat>) {
    |offsets| >= |done| + |more| + 1 && forall o | 1 <= o <= |more| :: offsets[|done| + o] == |TextOf(done)| + OffsetsOf(more)[o]
  }

  lemma RebasedSo(done: seq<Cell>, more: seq<Cell>, offsets: seq<nat>)
    requires |offsets| >= |done| + |more| + 1
    requires forall o | 1 <= o <= |more| :: offsets[|done| + o] == |TextOf(done)| + OffsetsOf(more)[o]
    ensures Rebased(done, more, offsets)
  {
    hide TextOf, OffsetsOf;
  }

  lemma FrontOffset(done: seq<Cell>, more: seq<Cell>, offsets: seq<nat>, k: nat)
    requires |offsets| > |done| && offsets[..|done| + 1] == OffsetsOf(done) && k <= |done|
    ensures offsets[k] == OffsetsOf(done + more)[k]
  {
    hide *;
    OffsetsPrefix(done, more, k);
    assert offsets[..|done| + 1][k] == offsets[k];
  }

  lemma LaterOffset(done: seq<Cell>, more: seq<Cell>, offsets: seq<nat>, k: nat)
    requires Rebased(done, more, offsets) && |done| < k <= |done| + |more|
    ensures offsets[k] == OffsetsOf(done + more)[k]
  {
    hide TextOf, OffsetsOf;
    var o := k - |done|;
    OffsetsConcat(done, more, o);
    assert offsets[|done| + o] == offsets[k];
  }

  datatype TextData = TextData(offsets: seq<nat>, text: string)

  method MergeTexts(first: TextData, sources: seq<TextData>, bases: seq<nat>, total: nat,
                    ghost have: seq<Cell>, ghost parts: seq<seq<Cell>>) returns (merged: TextData)
    requires first == TextsOf(have) && |sources| == |bases| == |parts| && total == |have| + |Flatten(parts)|
    requires forall i | 0 <= i < |sources| :: sources[i] == TextsOf(parts[i]) && bases[i] == |have| + |Flatten(parts[..i])|
    ensures merged == TextsOf(have + Flatten(parts))
  {
    FirstAndLast(have, parts);
    hide Flatten, Placed, OffsetsOf, TextOf;
    var offsets := StartTexts(first, total, have);
    var text := first.text;
    var i := 0;
    ghost var done := have;
    while i < |sources|
      invariant 0 <= i <= |sources| && done == have + Flatten(parts[..i]) && |done| <= total
      invariant Placed(offsets[..], text, done)
    {
      NextPart(have, parts, i);
      text := AddTexts(sources[i], offsets, bases[i], text, done, parts[i]);
      done := done + parts[i];
      i := i + 1;
    }
    AllPlaced(offsets[..], text, done);
    return TextData(offsets[..], text);
  }

  /** The offsets and bytes of the rows done so far. */
  ghost predicate Placed(offsets: seq<nat>, text: string, done: seq<Cell>) {
    |offsets| > |done| && offsets[..|done| + 1] == OffsetsOf(done) && text == TextOf(done)
  }

  lemma AllPlaced(offsets: seq<nat>, text: string, done: seq<Cell>)
    requires Placed(offsets, text, done) && |offsets| == |done| + 1
    ensures TextData(offsets, text) == TextsOf(done)
  {
    assert offsets[..|done| + 1] == offsets;
  }

  method StartTexts(first: TextData, total: nat, ghost have: seq<Cell>) returns (offsets: array<nat>)
    requires first == TextsOf(have) && |have| <= total
    ensures fresh(offsets) && offsets.Length == total + 1 && Placed(offsets[..], first.text, have)
  {
    hide OffsetsOf, TextOf;
    offsets := new nat[total + 1](_ => 0);
    CopyOffsets(first.offsets, offsets);
  }

  method CopyOffsets(source: seq<nat>, offsets: array<nat>)
    requires |source| <= offsets.Length
    modifies offsets
    ensures offsets[..|source|] == source
  {
    var k := 0;
    while k < |source|
      invariant 0 <= k <= |source|
      invariant offsets[..k] == source[..k]
    {
      offsets[k] := source[k];
      k := k + 1;
    }
  }

  method AddTexts(source: TextData, offsets: array<nat>, base: nat, text: string, ghost done: seq<Cell>, ghost more: seq<Cell>)
    returns (longer: string)
    requires source == TextsOf(more) && base == |done| && |done| + |more| < offsets.Length
    requires Placed(offsets[..], text, done)
    modifies offsets
    ensures Placed(offsets[..], longer, done + more)
  {
    RebaseOffsets(source.offsets, |text|, offsets, base);
    OffsetsContinue(done, more, offsets[..]);
    TextConcat(done, more);
    longer := text + source.text;
  }

  function TextsOf(cells: seq<Cell>): TextData {
    TextData(OffsetsOf(cells), TextOf(cells))
  }

  // ---- A whole column ------------------------------------------------------------------------------------------------

  /** Works row by row. */
  ghost predicate RowByRow<A(!new), B(!new)>(f: seq<A> -> seq<B>) {
    && f([]) == []
    && (forall a :: |f(a)| == |a|)
    && (forall a, b :: f(a + b) == f(a) + f(b))
  }

  function Each<A, B>(f: seq<A> -> seq<B>, parts: seq<seq<A>>): (out: seq<seq<B>>)
    ensures |out| == |parts| && forall i | 0 <= i < |out| :: out[i] == f(parts[i])
  {
    seq(|parts|, i requires 0 <= i < |parts| => f(parts[i]))
  }

  lemma {:induction false} EachFlattens<A(!new), B(!new)>(f: seq<A> -> seq<B>, parts: seq<seq<A>>)
    requires RowByRow(f)
    ensures Flatten(Each(f, parts)) == f(Flatten(parts))
  {
    if parts != [] {
      var last := |parts| - 1;
      EachFlattens(f, parts[..last]);
      assert Each(f, parts)[..last] == Each(f, parts[..last]);
    }
  }

  lemma EachPrefix<A(!new), B(!new)>(f: seq<A> -> seq<B>, parts: seq<seq<A>>, i: nat)
    requires RowByRow(f) && i <= |parts|
    ensures |Flatten(Each(f, parts)[..i])| == |Flatten(parts[..i])|
  {
    EachFlattens(f, parts[..i]);
    assert Each(f, parts)[..i] == Each(f, parts[..i]);
  }

  lemma BitsRowByRow()
    ensures RowByRow(Valids) && RowByRow(FlagsOf) && RowByRow(NumbersOf)
  {
    forall a: seq<Cell>, b: seq<Cell> ensures Valids(a + b) == Valids(a) + Valids(b) {}
    forall a: seq<Cell>, b: seq<Cell> ensures FlagsOf(a + b) == FlagsOf(a) + FlagsOf(b) {}
    forall a: seq<Cell>, b: seq<Cell> ensures NumbersOf(a + b) == NumbersOf(a) + NumbersOf(b) {}
  }

  /** The workers' columns of one field, with the cells they hold and the rows they go to. */
  ghost predicate Mergeable(dst: Buffer, srcs: seq<Buffer>, bases: seq<nat>, have: seq<Cell>, parts: seq<seq<Cell>>) {
    && Carries(dst, have) && |srcs| == |bases| == |parts|
    && forall i | 0 <= i < |srcs| ::
         && Carries(srcs[i], parts[i]) && srcs[i].kind == dst.kind && srcs[i].nullable == dst.nullable
         && bases[i] == |have| + |Flatten(parts[..i])|
  }

  lemma MergeableFirst(dst: Buffer, srcs: seq<Buffer>, bases: seq<nat>, have: seq<Cell>, parts: seq<seq<Cell>>)
    requires Mergeable(dst, srcs, bases, have, parts)
    ensures Carries(dst, have) && |srcs| == |bases| == |parts|
  {
  }

  lemma MergeablePart(dst: Buffer, srcs: seq<Buffer>, bases: seq<nat>, have: seq<Cell>, parts: seq<seq<Cell>>, i: nat)
    requires Mergeable(dst, srcs, bases, have, parts) && i < |srcs|
    ensures i < |parts| && i < |bases| && Carries(srcs[i], parts[i])
    ensures srcs[i].kind == dst.kind && srcs[i].nullable == dst.nullable && bases[i] == |have| + |Flatten(parts[..i])|
  {
    hide Carries, Flatten;
  }

  ghost predicate Sums(nullable: bool, cells: seq<Cell>, length: nat, nulls: nat, needsValidity: bool) {
    && length == |cells|
    && nulls == (if nullable then NullsOf(cells) else 0)
    && needsValidity == (nullable && cells != [])
  }

  lemma SumsStart(b: Buffer, cells: seq<Cell>)
    requires Carries(b, cells)
    ensures Sums(b.nullable, cells, b.length, b.nulls, b.validity != [] || b.nulls > 0)
  {
    if cells == [] { assert NullsOf(cells) == 0; }
  }

  lemma SumsMore(b: Buffer, cells: seq<Cell>, more: seq<Cell>, length: nat, nulls: nat, needsValidity: bool)
    requires Carries(b, more) && Sums(b.nullable, cells, length, nulls, needsValidity)
    ensures Sums(b.nullable, cells + more, length + b.length, nulls + b.nulls, needsValidity || b.validity != [] || b.nulls > 0)
  {
    SumsStart(b, more);
    NullsConcat(cells, more);
    hide Carries, NullsOf;
  }

  /** The sums over the workers, and whether any column has validity bytes or nulls. */
  method Totals(dst: Buffer, srcs: seq<Buffer>, ghost bases: seq<nat>, ghost have: seq<Cell>, ghost parts: seq<seq<Cell>>)
    returns (length: nat, nulls: nat, needsValidity: bool)
    requires Mergeable(dst, srcs, bases, have, parts)
    ensures Sums(dst.nullable, have + Flatten(parts), length, nulls, needsValidity)
  {
    hide *;
    MergeableFirst(dst, srcs, bases, have, parts);
    length, nulls, needsValidity := dst.length, dst.nulls, dst.validity != [] || dst.nulls > 0;
    FirstAndLast(have, parts);
    SumsStart(dst, have);
    var i := 0;
    while i < |srcs|
      invariant 0 <= i <= |srcs|
      invariant Sums(dst.nullable, have + Flatten(parts[..i]), length, nulls, needsValidity)
    {
      NextPart(have, parts, i);
      MergeablePart(dst, srcs, bases, have, parts, i);
      SumsMore(srcs[i], have + Flatten(parts[..i]), parts[i], length, nulls, needsValidity);
      length := length + srcs[i].length;
      nulls := nulls + srcs[i].nulls;
      needsValidity := needsValidity || srcs[i].validity != [] || srcs[i].nulls > 0;
      i := i + 1;
    }
  }

  function Validities(srcs: seq<Buffer>): (bitmaps: seq<Bitmap>)
    ensures |bitmaps| == |srcs| && forall i | 0 <= i < |srcs| :: bitmaps[i] == Bitmap(srcs[i].validity, srcs[i].length)
  {
    seq(|srcs|, i requires 0 <= i < |srcs| => Bitmap(srcs[i].validity, srcs[i].length))
  }

  function FlagBits(srcs: seq<Buffer>): (bitmaps: seq<Bitmap>)
    ensures |bitmaps| == |srcs| && forall i | 0 <= i < |srcs| :: bitmaps[i] == Bitmap(srcs[i].flags, srcs[i].length)
  {
    seq(|srcs|, i requires 0 <= i < |srcs| => Bitmap(srcs[i].flags, srcs[i].length))
  }

  function ValidParts(srcs: seq<Buffer>): (parts: seq<seq<bool>>)
    ensures |parts| == |srcs| && forall i | 0 <= i < |srcs| :: parts[i] == ShownValid(srcs[i])
  {
    seq(|srcs|, i requires 0 <= i < |srcs| => ShownValid(srcs[i]))
  }

  function FlagParts(srcs: seq<Buffer>): (parts: seq<seq<bool>>)
    ensures |parts| == |srcs| && forall i | 0 <= i < |srcs| :: parts[i] == ShownFlags(srcs[i])
  {
    seq(|srcs|, i requires 0 <= i < |srcs| => ShownFlags(srcs[i]))
  }

  lemma ValidityReads(b: Buffer, cells: seq<Cell>)
    requires Carries(b, cells) && b.nullable
    ensures Reads(b.validity, ShownValid(b), true) && b.length == |cells|
  {
  }

  lemma FlagsRead(b: Buffer, cells: seq<Cell>)
    requires Carries(b, cells) && b.kind.Flags?
    ensures Reads(b.flags, ShownFlags(b), false) && b.length == |cells|
  {
  }

  /** Parts of equal lengths start at equal places. */
  lemma {:induction false} SameLengths<A, B>(a: seq<seq<A>>, b: seq<seq<B>>)
    requires |a| == |b| && forall i | 0 <= i < |a| :: |a[i]| == |b[i]|
    ensures |Flatten(a)| == |Flatten(b)|
  {
    if a != [] { SameLengths(a[..|a| - 1], b[..|b| - 1]); }
  }

  lemma PrefixLengths<A, B>(a: seq<seq<A>>, b: seq<seq<B>>, i: nat)
    requires |a| == |b| && i <= |a| && forall k | 0 <= k < |a| :: |a[k]| == |b[k]|
    ensures |Flatten(a[..i])| == |Flatten(b[..i])|
  {
    SameLengths(a[..i], b[..i]);
  }

  /** Each part's bits are as many as its cells. */
  lemma PartLengths(dst: Buffer, srcs: seq<Buffer>, bases: seq<nat>, have: seq<Cell>, parts: seq<seq<Cell>>)
    requires Mergeable(dst, srcs, bases, have, parts)
    ensures dst.length == |have| && |srcs| == |parts| && forall i | 0 <= i < |srcs| :: srcs[i].length == |parts[i]|
    ensures |Flatten(ValidParts(srcs))| == |Flatten(parts)| && |Flatten(FlagParts(srcs))| == |Flatten(parts)|
  {
    hide Flatten, BitSized, AllFit;
    SameLengths(ValidParts(srcs), parts);
    SameLengths(FlagParts(srcs), parts);
  }

  lemma ValiditiesReady(dst: Buffer, srcs: seq<Buffer>, bases: seq<nat>, have: seq<Cell>, parts: seq<seq<Cell>>)
    requires Mergeable(dst, srcs, bases, have, parts) && dst.nullable
    ensures BitmapsReady(Bitmap(dst.validity, dst.length), Validities(srcs), bases, true, ShownValid(dst), ValidParts(srcs))
  {
    hide Carries, Flatten, Reads, ShownValid;
    PartLengths(dst, srcs, bases, have, parts);
    ValidityReads(dst, have);
    forall i | 0 <= i < |srcs|
      ensures Reads(srcs[i].validity, ShownValid(srcs[i]), true)
      ensures |Flatten(ValidParts(srcs)[..i])| == |Flatten(parts[..i])|
    {
      MergeablePart(dst, srcs, bases, have, parts, i);
      ValidityReads(srcs[i], parts[i]);
      PrefixLengths(ValidParts(srcs), parts, i);
    }
  }

  lemma FlagsReady(dst: Buffer, srcs: seq<Buffer>, bases: seq<nat>, have: seq<Cell>, parts: seq<seq<Cell>>)
    requires Mergeable(dst, srcs, bases, have, parts) && dst.kind.Flags?
    ensures BitmapsReady(Bitmap(dst.flags, dst.length), FlagBits(srcs), bases, false, ShownFlags(dst), FlagParts(srcs))
  {
    hide Carries, Flatten, Reads, ShownFlags;
    PartLengths(dst, srcs, bases, have, parts);
    FlagsRead(dst, have);
    forall i | 0 <= i < |srcs|
      ensures Reads(srcs[i].flags, ShownFlags(srcs[i]), false)
      ensures |Flatten(FlagParts(srcs)[..i])| == |Flatten(parts[..i])|
    {
      MergeablePart(dst, srcs, bases, have, parts, i);
      FlagsRead(srcs[i], parts[i]);
      PrefixLengths(FlagParts(srcs), parts, i);
    }
  }

  /** Bits, flags and numbers of all cells are those of the parts. */
  lemma EachConcat<B(!new)>(f: seq<Cell> -> seq<B>, have: seq<Cell>, parts: seq<seq<Cell>>)
    requires RowByRow(f)
    ensures f(have) + Flatten(Each(f, parts)) == f(have + Flatten(parts))
    ensures |f(have)| + |Flatten(Each(f, parts))| == |have| + |Flatten(parts)|
  {
    EachFlattens(f, parts);
  }

  method MergeBits(dst: Buffer, srcs: seq<Buffer>, bases: seq<nat>, length: nat, needsValidity: bool,
                   ghost have: seq<Cell>, ghost parts: seq<seq<Cell>>) returns (validity: seq<Byte>, flags: seq<Byte>)
    requires Mergeable(dst, srcs, bases, have, parts) && length == |have| + |Flatten(parts)|
    requires needsValidity == (dst.nullable && length > 0)
    ensures if dst.nullable then Encodes(validity, ShownValid(dst) + Flatten(ValidParts(srcs))) else validity == []
    ensures if dst.kind.Flags? then Encodes(flags, ShownFlags(dst) + Flatten(FlagParts(srcs))) else flags == []
  {
    hide *;
    PartLengths(dst, srcs, bases, have, parts);
    validity, flags := [], [];
    NoBits(ShownValid(dst) + Flatten(ValidParts(srcs)));
    if needsValidity {
      ValiditiesReady(dst, srcs, bases, have, parts);
      validity := MergeBitmaps(Bitmap(dst.validity, dst.length), Validities(srcs), bases, length, true, ShownValid(dst), ValidParts(srcs));
    }
    if dst.kind.Flags? {
      FlagsReady(dst, srcs, bases, have, parts);
      flags := MergeBitmaps(Bitmap(dst.flags, dst.length), FlagBits(srcs), bases, length, false, ShownFlags(dst), FlagParts(srcs));
    }
  }

  lemma NoBits(bits: seq<bool>)
    ensures bits == [] ==> Encodes([], bits)
  {
  }

  function NumbersIn(srcs: seq<Buffer>): (numbers: seq<seq<int>>)
    ensures |numbers| == |srcs| && forall i | 0 <= i < |srcs| :: numbers[i] == srcs[i].numbers
  {
    seq(|srcs|, i requires 0 <= i < |srcs| => srcs[i].numbers)
  }

  function TextsIn(srcs: seq<Buffer>): (texts: seq<TextData>)
    ensures |texts| == |srcs| && forall i | 0 <= i < |srcs| :: texts[i] == TextData(srcs[i].offsets, srcs[i].text)
  {
    seq(|srcs|, i requires 0 <= i < |srcs| => TextData(srcs[i].offsets, srcs[i].text))
  }

  lemma NumbersReady(dst: Buffer, srcs: seq<Buffer>, bases: seq<nat>, have: seq<Cell>, parts: seq<seq<Cell>>)
    requires Mergeable(dst, srcs, bases, have, parts) && dst.kind.Numbers?
    ensures dst.numbers == NumbersOf(have) && NumbersIn(srcs) == Each(NumbersOf, parts) && |bases| == |srcs|
    ensures forall i | 0 <= i < |srcs| :: bases[i] == |dst.numbers| + |Flatten(NumbersIn(srcs)[..i])|
  {
    hide Flatten, BitSized, RowByRow;
    BitsRowByRow();
    assert NumbersIn(srcs) == Each(NumbersOf, parts);
    forall i | 0 <= i < |srcs| ensures bases[i] == |dst.numbers| + |Flatten(NumbersIn(srcs)[..i])| {
      MergeablePart(dst, srcs, bases, have, parts, i);
      EachPrefix(NumbersOf, parts, i);
    }
  }

  lemma TextsReady(dst: Buffer, srcs: seq<Buffer>, bases: seq<nat>, have: seq<Cell>, parts: seq<seq<Cell>>)
    requires Mergeable(dst, srcs, bases, have, parts) && dst.kind.Texts?
    ensures TextData(dst.offsets, dst.text) == TextsOf(have) && |srcs| == |bases| == |parts|
    ensures forall i | 0 <= i < |srcs| :: TextsIn(srcs)[i] == TextsOf(parts[i]) && bases[i] == |have| + |Flatten(parts[..i])|
  {
    hide Flatten, BitSized;
  }

  method MergeValues(dst: Buffer, srcs: seq<Buffer>, bases: seq<nat>, length: nat, ghost have: seq<Cell>, ghost parts: seq<seq<Cell>>)
    returns (numbers: seq<int>, texts: TextData)
    requires Mergeable(dst, srcs, bases, have, parts) && length == |have| + |Flatten(parts)|
    ensures numbers == if dst.kind.Numbers? then NumbersOf(have + Flatten(parts)) else []
    ensures texts == if dst.kind.Texts? then TextsOf(have + Flatten(parts)) else TextData([], "")
  {
    hide *;
    numbers, texts := [], TextData([], "");
    if dst.kind.Numbers? {
      BitsRowByRow();
      NumbersReady(dst, srcs, bases, have, parts);
      EachConcat(NumbersOf, have, parts);
      numbers := MergeNumbers(dst.numbers, NumbersIn(srcs), bases, length);
    }
    if dst.kind.Texts? {
      TextsReady(dst, srcs, bases, have, parts);
      texts := MergeTexts(TextData(dst.offsets, dst.text), TextsIn(srcs), bases, length, have, parts);
    }
  }

  /** A column of these cells whose bits are those that the parts show, one behind the other. */
  ghost predicate EndToEnd(out: Buffer, dst: Buffer, srcs: seq<Buffer>, cells: seq<Cell>) {
    && Carries(out, cells) && out.kind == dst.kind && out.nullable == dst.nullable
    && (dst.nullable ==> Encodes(out.validity, ShownValid(dst) + Flatten(ValidParts(srcs))))
    && (dst.kind.Flags? ==> Encodes(out.flags, ShownFlags(dst) + Flatten(FlagParts(srcs))))
  }

  /** `merge_workers_parallel` on one column, whatever bits aborted rows have left in the parts. */
  method MergeColumn(dst: Buffer, srcs: seq<Buffer>, bases: seq<nat>, ghost have: seq<Cell>, ghost parts: seq<seq<Cell>>)
    returns (out: Buffer)
    requires Mergeable(dst, srcs, bases, have, parts)
    ensures EndToEnd(out, dst, srcs, have + Flatten(parts))
  {
    hide *;
    AllCellsFit(dst, srcs, bases, have, parts);
    PartLengths(dst, srcs, bases, have, parts);
    var length, nulls, needsValidity := Totals(dst, srcs, bases, have, parts);
    SumsAre(dst.nullable, have + Flatten(parts), length, nulls, needsValidity);
    var validity, flags := MergeBits(dst, srcs, bases, length, needsValidity, have, parts);
    var numbers, texts := MergeValues(dst, srcs, bases, length, have, parts);
    out := Buffer(dst.kind, dst.nullable, length, nulls, numbers, flags, validity, texts.offsets, texts.text);
    Assembled(out, dst, srcs, have + Flatten(parts), texts);
  }

  /** Parts that hold exactly their cells are joined to exactly all cells. */
  lemma JoinedRepresents(out: Buffer, dst: Buffer, srcs: seq<Buffer>, have: seq<Cell>, parts: seq<seq<Cell>>)
    requires EndToEnd(out, dst, srcs, have + Flatten(parts)) && |srcs| == |parts| && Represents(dst, have)
    requires forall i | 0 <= i < |srcs| :: Represents(srcs[i], parts[i]) && srcs[i].kind == dst.kind && srcs[i].nullable == dst.nullable
    ensures Represents(out, have + Flatten(parts))
  {
    hide Flatten, Represents, Carries, RowByRow, ShownValid, ShownFlags;
    BitsRowByRow();
    PartBits(dst, srcs, have, parts);
    EachConcat(Valids, have, parts);
    EachConcat(FlagsOf, have, parts);
    BitsRepresent(out, have + Flatten(parts));
  }

  lemma PartBits(dst: Buffer, srcs: seq<Buffer>, have: seq<Cell>, parts: seq<seq<Cell>>)
    requires |srcs| == |parts| && Represents(dst, have)
    requires forall i | 0 <= i < |srcs| :: Represents(srcs[i], parts[i]) && srcs[i].kind == dst.kind && srcs[i].nullable == dst.nullable
    ensures dst.nullable ==> ShownValid(dst) == Valids(have) && ValidParts(srcs) == Each(Valids, parts)
    ensures dst.kind.Flags? ==> ShownFlags(dst) == FlagsOf(have) && FlagParts(srcs) == Each(FlagsOf, parts)
  {
    hide Represents, Carries;
    RepresentsIff(dst, have);
    forall i | 0 <= i < |srcs|
      ensures dst.nullable ==> ShownValid(srcs[i]) == Valids(parts[i])
      ensures dst.kind.Flags? ==> ShownFlags(srcs[i]) == FlagsOf(parts[i])
    {
      RepresentsIff(srcs[i], parts[i]);
    }
  }

  lemma BitsRepresent(out: Buffer, cells: seq<Cell>)
    requires Carries(out, cells)
    requires out.nullable ==> Encodes(out.validity, Valids(cells))
    requires out.kind.Flags? ==> Encodes(out.flags, FlagsOf(cells))
    ensures Represents(out, cells)
  {
    hide Encodes, HoldsValues;
  }

  lemma SumsAre(nullable: bool, cells: seq<Cell>, length: nat, nulls: nat, needsValidity: bool)
    requires Sums(nullable, cells, length, nulls, needsValidity)
    ensures length == |cells| && nulls == (if nullable then NullsOf(cells) else 0) && needsValidity == (nullable && length > 0)
  {
  }

  lemma Assembled(b: Buffer, dst: Buffer, srcs: seq<Buffer>, cells: seq<Cell>, texts: TextData)
    requires b.kind == dst.kind && b.nullable == dst.nullable && |ShownValid(dst) + Flatten(ValidParts(srcs))| == |cells|
    requires |ShownFlags(dst) + Flatten(FlagParts(srcs))| == |cells|
    requires AllFit(b.kind, cells) && b.length == |cells| && b.nulls == (if b.nullable then NullsOf(cells) else 0)
    requires b.numbers == if b.kind.Numbers? then NumbersOf(cells) else []
    requires texts == if b.kind.Texts? then TextsOf(cells) else TextData([], "")
    requires b.offsets == texts.offsets && b.text == texts.text
    requires if b.nullable then Encodes(b.validity, ShownValid(dst) + Flatten(ValidParts(srcs))) else b.validity == []
    requires if b.kind.Flags? then Encodes(b.flags, ShownFlags(dst) + Flatten(FlagParts(srcs))) else b.flags == []
    ensures EndToEnd(b, dst, srcs, cells)
  {
    hide Rows, Clean, NullsOf, TextOf, OffsetsOf, NumbersOf, ShownValid, ShownFlags, Flatten;
  }

  lemma {:induction false} AllCellsFit(dst: Buffer, srcs: seq<Buffer>, bases: seq<nat>, have: seq<Cell>, parts: seq<seq<Cell>>)
    requires Mergeable(dst, srcs, bases, have, parts)
    ensures AllFit(dst.kind, have + Flatten(parts))
  {
    FlattenFits(dst.kind, parts);
  }

  lemma {:induction false} FlattenFits(kind: Kind, parts: seq<seq<Cell>>)
    requires forall i | 0 <= i < |parts| :: AllFit(kind, parts[i])
    ensures AllFit(kind, Flatten(parts))
  {
    if parts != [] { FlattenFits(kind, parts[..|parts| - 1]); }
  }
}
