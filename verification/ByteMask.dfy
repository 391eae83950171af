/** Packed row masks: row i is digit i % 8 of byte i / 8. */
module ByteMask {
  import opened Bits

  /** `bitmask_bytes`. */
  function Bytes(n: nat): nat {
    (n + 7) / 8
  }

  predicate At(mask: seq<Byte>, i: nat)
    requires i < 8 * |mask|
  {
    Bit(mask[i / 8], i % 8)
  }

  /** The rows a mask stands for. */
  function Rows(mask: seq<Byte>, n: nat): (rows: seq<bool>)
    requires n <= 8 * |mask|
    ensures |rows| == n
  {
    seq(n, i requires 0 <= i < n => At(mask, i))
  }

  /** A mask of n rows whose padding digits are zero. */
  ghost predicate Clean(mask: seq<Byte>, n: nat) {
    && |mask| == Bytes(n)
    && forall i: nat | n <= i < 8 * |mask| :: !At(mask, i)
  }

  /** The set rows below k, ascending. */
  function IndicesBelow(rows: seq<bool>, k: nat): (list: seq<nat>) {
    if k == 0 then []
    else if k - 1 < |rows| && rows[k - 1] then IndicesBelow(rows, k - 1) + [k - 1]
    else IndicesBelow(rows, k - 1)
  }

  /** The rows set in a mask, ascending. */
  function Indices(rows: seq<bool>): seq<nat> {
    IndicesBelow(rows, |rows|)
  }

  function Count(rows: seq<bool>): nat {
    |Indices(rows)|
  }

  lemma {:induction false} IndicesBelowExact(rows: seq<bool>, k: nat)
    ensures forall a, b | 0 <= a < b < |IndicesBelow(rows, k)| :: IndicesBelow(rows, k)[a] < IndicesBelow(rows, k)[b]
    ensures forall i: nat :: i in IndicesBelow(rows, k) <==> i < k && i < |rows| && rows[i]
  {
    if k != 0 {
      IndicesBelowExact(rows, k - 1);
      var before, list := IndicesBelow(rows, k - 1), IndicesBelow(rows, k);
      assert forall a | 0 <= a < |before| :: before[a] in before;
    }
  }

  /** Strictly ascending, and exactly the set rows: these two facts determine the list. */
  lemma IndicesExact(rows: seq<bool>)
    ensures forall a, b | 0 <= a < b < |Indices(rows)| :: Indices(rows)[a] < Indices(rows)[b]
    ensures forall i: nat :: i in Indices(rows) <==> i < |rows| && rows[i]
  {
    IndicesBelowExact(rows, |rows|);
  }

  lemma {:induction false} CleanMasksEqual(a: seq<Byte>, b: seq<Byte>, n: nat)
    requires Clean(a, n) && Clean(b, n)
    requires Rows(a, n) == Rows(b, n)
    ensures a == b
  {
    forall j | 0 <= j < |a| ensures a[j] == b[j] {
      forall k: nat | k < 8 ensures Bit(a[j], k) == Bit(b[j], k) {
        var i := 8 * j + k;
        assert i / 8 == j && i % 8 == k;
        if i < n {
          assert Rows(a, n)[i] == Rows(b, n)[i];
        } else {
          assert !At(a, i) && !At(b, i);
        }
      }
      BytePow();
      SameBits(a[j], b[j], 8);
    }
  }

  lemma BytePow()
    ensures Pow2(8) == 256
  {
    assert Pow2(4) == 16;
  }

  /** What `memcpy` of some bytes into an unsigned word yields on a little-endian machine. */
  function LoadWord(bytes: seq<Byte>): nat {
    if bytes == [] then 0 else bytes[0] + 256 * LoadWord(bytes[1..])
  }

  lemma {:induction false} LoadWordBit(bytes: seq<Byte>, k: nat)
    requires k < 8 * |bytes|
    ensures Bit(LoadWord(bytes), k) == At(bytes, k)
  {
    BytePow();
    ConcatBit(bytes[0], 8, LoadWord(bytes[1..]), k);
    if k >= 8 {
      LoadWordBit(bytes[1..], k - 8);
      assert (k - 8) / 8 == k / 8 - 1 && (k - 8) % 8 == k % 8;
    }
  }

  lemma {:induction false} LoadWordBound(bytes: seq<Byte>)
    ensures LoadWord(bytes) < Pow2(8 * |bytes|)
  {
    if bytes != [] {
      LoadWordBound(bytes[1..]);
      BytePow();
      Pow2Add(8, 8 * |bytes[1..]|);
      assert 8 * |bytes| == 8 + 8 * |bytes[1..]|;
    }
  }

  lemma {:induction false} Pow2Add(a: nat, b: nat)
    ensures Pow2(a + b) == Pow2(a) * Pow2(b)
  {
    if a != 0 { Pow2Add(a - 1, b); }
  }

  /** Rows `base + k`, k below `width`, that are set in a word and lie below n. */
  function WordRows(w: nat, width: nat, base: nat, n: nat): seq<nat> {
    if width == 0 then []
    else if Bit(w, width - 1) && base + width - 1 < n then
      WordRows(w, width - 1, base, n) + [base + width - 1]
    else
      WordRows(w, width - 1, base, n)
  }

  lemma {:induction false} WordRowsSkip(w: nat, low: nat, high: nat, base: nat, n: nat)
    requires low <= high
    requires forall k: nat | low <= k < high :: !Bit(w, k)
    ensures WordRows(w, high, base, n) == WordRows(w, low, base, n)
  {
    if low < high { WordRowsSkip(w, low, high - 1, base, n); }
  }

  lemma {:induction false} IndicesBelowPast(rows: seq<bool>, k: nat)
    requires k >= |rows|
    ensures IndicesBelow(rows, k) == Indices(rows)
  {
    if k > |rows| { IndicesBelowPast(rows, k - 1); }
  }

  /** The low `width` digits of w are the rows from `base` on. */
  ghost predicate Holds(w: nat, width: nat, base: nat, rows: seq<bool>) {
    forall k: nat | k < width && base + k < |rows| :: Bit(w, k) == rows[base + k]
  }

  /** Appending a word's rows to the list of the rows before it. */
  lemma {:induction false} ExtendByWord(rows: seq<bool>, w: nat, width: nat, base: nat)
    requires Holds(w, width, base, rows)
    ensures IndicesBelow(rows, base) + WordRows(w, width, base, |rows|) == IndicesBelow(rows, base + width)
  {
    if width != 0 {
      ExtendByWord(rows, w, width - 1, base);
    }
  }

  /** One turn of the scanning loop, from the rows below t to the lowest row left in `word`. */
  lemma DrainStep(w: nat, word: nat, t: nat, width: nat, base: nat, n: nat)
    requires w < Pow2(width) && word != 0
    requires forall k: nat :: Bit(word, k) == (k >= t && Bit(w, k))
    ensures var bit := Ctz(word);
      && t <= bit < width
      && Clear(word) < word
      && WordRows(w, bit + 1, base, n) == (if base + bit < n then WordRows(w, t, base, n) + [base + bit] else WordRows(w, t, base, n))
      && forall k: nat :: Bit(Clear(word), k) == (k >= bit + 1 && Bit(w, k))
  {
    var bit := Ctz(word);
    assert Bit(word, bit);
    if bit >= width { HighBit(w, width, bit); }
    forall k: nat | t <= k < bit ensures !Bit(w, k) { CtzLowest(word, k); assert !Bit(word, k); }
    WordRowsSkip(w, t, bit, base, n);
    assert Bit(w, bit);
    ClearLowest(word, 0);
    forall k: nat ensures Bit(Clear(word), k) == (k >= bit + 1 && Bit(w, k)) {
      ClearLowest(word, k);
      if k < bit { CtzLowest(word, k); }
    }
  }

  /** The inner loop of the bit scanners: lowest set digit out, clear it, repeat. */
  method DrainWord(w: nat, ghost width: nat, base: nat, n: nat, acc: seq<nat>) returns (out: seq<nat>)
    requires w < Pow2(width)
    ensures out == acc + WordRows(w, width, base, n)
  {
    var word: nat := w;
    ghost var t: nat, rows: seq<nat> := 0, [];
    out := acc;
    while word != 0
      invariant t <= width
      invariant forall k: nat :: Bit(word, k) == (k >= t && Bit(w, k))
      invariant rows == WordRows(w, t, base, n)
      invariant out == acc + rows
      decreases word
    {
      DrainStep(w, word, t, width, base, n);
      var bit := Ctz(word);
      var idx := base + bit;
      if idx < n {
        out := out + [idx];
        rows := rows + [idx];
      }
      word := Clear(word);
      t := bit + 1;
    }
    forall k: nat | t <= k < width ensures !Bit(w, k) { ZeroBit(k); assert !Bit(word, k); }
    WordRowsSkip(w, t, width, base, n);
  }

  /** The digits of a word loaded from byte b are the mask's rows from 8 * b on. */
  lemma LoadedRows(mask: seq<Byte>, b: nat, len: nat, n: nat)
    requires b + len <= |mask| && n <= 8 * |mask|
    ensures Holds(LoadWord(mask[b..b + len]), 8 * len, 8 * b, Rows(mask, n))
  {
    var w := LoadWord(mask[b..b + len]);
    forall k: nat | k < 8 * len && 8 * b + k < n ensures Bit(w, k) == Rows(mask, n)[8 * b + k] {
      LoadWordBit(mask[b..b + len], k);
      assert (8 * b + k) / 8 == b + k / 8 && (8 * b + k) % 8 == k % 8;
    }
  }

  /** Draining `len` bytes from byte b on extends the list of set rows by 8 * len rows. */
  lemma DrainedBytes(mask: seq<Byte>, b: nat, len: nat, n: nat, word: nat)
    requires b + len <= |mask| && n <= 8 * |mask|
    requires word == LoadWord(mask[b..b + len])
    ensures IndicesBelow(Rows(mask, n), 8 * b) + WordRows(word, 8 * len, 8 * b, n)
         == IndicesBelow(Rows(mask, n), 8 * (b + len))
  {
    LoadedRows(mask, b, len, n);
    ExtendByWord(Rows(mask, n), word, 8 * len, 8 * b);
  }

  lemma OneByte(mask: seq<Byte>, b: nat, n: nat)
    requires b < |mask| && n <= 8 * |mask|
    ensures mask[b] < Pow2(8)
    ensures IndicesBelow(Rows(mask, n), 8 * b) + WordRows(mask[b], 8, 8 * b, n)
         == IndicesBelow(Rows(mask, n), 8 * (b + 1))
  {
    BytePow();
    assert LoadWord(mask[b..b + 1]) == mask[b];
    DrainedBytes(mask, b, 1, n, mask[b]);
  }

  lemma AppendParts(init: seq<nat>, before: seq<nat>, found: seq<nat>)
    ensures (init + before) + found == init + (before + found)
  {
  }

  /** `find_set_bits`: four bytes at a time, then single bytes; it appends to what `out` held. */
  method FindSetBits(mask: array<Byte>, n: nat, init: seq<nat>) returns (out: seq<nat>)
    requires Bytes(n) <= mask.Length
    ensures out == init + Indices(Rows(mask[..], n))
  {
    var bytes := Bytes(n);
    var b := 0;
    out := init;
    while b + 4 <= bytes
      invariant 0 <= b <= bytes
      invariant out == init + IndicesBelow(Rows(mask[..], n), 8 * b)
    {
      var word := LoadWord(mask[..][b..b + 4]);
      LoadWordBound(mask[..][b..b + 4]);
      DrainedBytes(mask[..], b, 4, n, word);
      AppendParts(init, IndicesBelow(Rows(mask[..], n), 8 * b), WordRows(word, 32, 8 * b, n));
      out := DrainWord(word, 32, 8 * b, n, out);
      b := b + 4;
    }
    while b < bytes
      invariant 0 <= b <= bytes
      invariant out == init + IndicesBelow(Rows(mask[..], n), 8 * b)
    {
      OneByte(mask[..], b, n);
      AppendParts(init, IndicesBelow(Rows(mask[..], n), 8 * b), WordRows(mask[b], 8, 8 * b, n));
      out := DrainWord(mask[b], 8, 8 * b, n, out);
      b := b + 1;
    }
    IndicesBelowPast(Rows(mask[..], n), 8 * b);
  }

  /** `collect_set_bits`: the same list, byte by byte, replacing what `out` held. */
  method CollectSetBits(mask: array<Byte>, n: nat) returns (out: seq<nat>)
    requires Bytes(n) <= mask.Length
    ensures out == Indices(Rows(mask[..], n))
  {
    out := [];
    var b := 0;
    while b < Bytes(n)
      invariant 0 <= b <= Bytes(n)
      invariant out == IndicesBelow(Rows(mask[..], n), 8 * b)
    {
      OneByte(mask[..], b, n);
      out := DrainWord(mask[b], 8, 8 * b, n, out);
      b := b + 1;
    }
    IndicesBelowPast(Rows(mask[..], n), 8 * b);
  }

  function WordCount(w: nat, width: nat): nat {
    if width == 0 then 0 else WordCount(w, width - 1) + if Bit(w, width - 1) then 1 else 0
  }

  lemma {:induction false} PopCountIsWordCount(w: nat, width: nat)
    requires w < Pow2(width)
    ensures PopCount(w) == WordCount(w, width)
  {
    if width != 0 {
      PopCountIsWordCount(w / 2, width - 1);
      WordCountShift(w, width - 1);
    }
  }

  lemma {:induction false} WordCountShift(w: nat, width: nat)
    ensures WordCount(w, width + 1) == w % 2 + WordCount(w / 2, width)
  {
    if width != 0 { WordCountShift(w, width - 1); }
  }

  lemma {:induction false} WordRowsLength(w: nat, width: nat, base: nat, n: nat)
    requires base + width <= n
    ensures |WordRows(w, width, base, n)| == WordCount(w, width)
  {
    if width != 0 { WordRowsLength(w, width - 1, base, n); }
  }

  /** Counting a word adds the rows it holds. */
  lemma CountStep(mask: seq<Byte>, b: nat, len: nat)
    requires b + len <= |mask|
    ensures |IndicesBelow(Rows(mask, 8 * |mask|), 8 * (b + len))|
         == |IndicesBelow(Rows(mask, 8 * |mask|), 8 * b)| + PopCount(LoadWord(mask[b..b + len]))
  {
    var n := 8 * |mask|;
    var word := LoadWord(mask[b..b + len]);
    LoadWordBound(mask[b..b + len]);
    LoadedRows(mask, b, len, n);
    ExtendByWord(Rows(mask, n), word, 8 * len, 8 * b);
    WordRowsLength(word, 8 * len, 8 * b, n);
    PopCountIsWordCount(word, 8 * len);
  }

  /** `count_set_bits`: eight bytes at a time, then single bytes.  Padding digits are counted too,
      which is why every producer keeps them zero. */
  method CountSetBits(mask: array<Byte>) returns (count: nat)
    ensures count == Count(Rows(mask[..], 8 * mask.Length))
    ensures forall n: nat | Clean(mask[..], n) :: count == Count(Rows(mask[..], n))
  {
    count := 0;
    var i := 0;
    ghost var all := Rows(mask[..], 8 * mask.Length);
    while i + 8 <= mask.Length
      invariant 0 <= i <= mask.Length
      invariant count == |IndicesBelow(all, 8 * i)|
    {
      CountStep(mask[..], i, 8);
      assert mask[..][i..i + 8] == mask[i..i + 8];
      count := count + PopCount(LoadWord(mask[i..i + 8]));
      i := i + 8;
    }
    while i < mask.Length
      invariant 0 <= i <= mask.Length
      invariant count == |IndicesBelow(all, 8 * i)|
    {
      CountStep(mask[..], i, 1);
      assert mask[..][i..i + 1] == [mask[i]];
      assert LoadWord([mask[i]]) == mask[i];
      count := count + PopCount(mask[i]);
      i := i + 1;
    }
    forall n: nat | Clean(mask[..], n) ensures count == Count(Rows(mask[..], n)) {
      CleanCount(mask[..], n, 8 * mask.Length);
      IndicesBelowPast(Rows(mask[..], n), 8 * mask.Length);
    }
  }

  lemma {:induction false} CleanCount(mask: seq<Byte>, n: nat, m: nat)
    requires Clean(mask, n) && n <= 8 * |mask|
    requires m <= 8 * |mask|
    ensures IndicesBelow(Rows(mask, 8 * |mask|), m) == IndicesBelow(Rows(mask, n), m)
  {
    if m != 0 {
      CleanCount(mask, n, m - 1);
      assert Rows(mask, 8 * |mask|)[m - 1] == At(mask, m - 1);
      if m - 1 < n { assert Rows(mask, n)[m - 1] == At(mask, m - 1); }
    }
  }
}
