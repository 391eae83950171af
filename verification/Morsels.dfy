/** The morsels of a batch, worked on by any threads in any order. */
module Morsels {
  import opened Bits
  import opened ByteMask
  import opened MaskKernels
  import opened Decision
  import opened Sums

  const MORSEL_ROWS := 2048

  function MorselCount(n: nat): nat {
    (n + MORSEL_ROWS - 1) / MORSEL_ROWS
  }

  /** The rows of morsel mi: `min(MORSEL_ROWS, n - r0)`. */
  function Size(n: nat, mi: nat): (m: nat)
    requires mi < MorselCount(n)
    ensures 0 < m <= MORSEL_ROWS && MORSEL_ROWS * mi + m <= n
  {
    var left := n - MORSEL_ROWS * mi;
    if left < MORSEL_ROWS then left else MORSEL_ROWS
  }

  /** A rule's matches on the rows of one morsel. */
  function Slice(rows: seq<bool>, mi: nat): (slice: seq<bool>)
    requires mi < MorselCount(|rows|)
    ensures |slice| == Size(|rows|, mi)
  {
    rows[MORSEL_ROWS * mi..MORSEL_ROWS * mi + Size(|rows|, mi)]
  }

  /** A morsel's bytes are whole bytes of the batch's mask. */
  lemma MorselBytes(n: nat, mi: nat)
    requires mi < MorselCount(n)
    ensures 256 * mi + Bytes(Size(n, mi)) <= Bytes(n)
    ensures forall b: nat | b < Bytes(n) :: 256 * mi <= b < 256 * mi + Bytes(Size(n, mi)) <==> b / 256 == mi
  {
  }

  lemma MorselByte(rows: seq<bool>, mi: nat, mask: seq<Byte>, j: nat)
    requires mi < MorselCount(|rows|) && Encodes(mask, Slice(rows, mi)) && j < |mask|
    ensures EncodesByte(mask[j], 256 * mi + j, rows)
  {
    hide Encodes, Slice, Bit;
    EncodesSize(mask, Slice(rows, mi));
    EncodesByBytes(mask, Slice(rows, mi));
    assert EncodesByte(mask[j], j, Slice(rows, mi));
    forall k: nat | k < 8
      ensures Bit(mask[j], k) == (8 * (256 * mi + j) + k < |rows| && rows[8 * (256 * mi + j) + k])
    {
      SliceAt(rows, mi, 8 * j + k);
    }
  }

  lemma EncodesSize(mask: seq<Byte>, rows: seq<bool>)
    requires Encodes(mask, rows)
    ensures |mask| == Bytes(|rows|)
  {
  }

  lemma SliceAt(rows: seq<bool>, mi: nat, i: nat)
    requires mi < MorselCount(|rows|) && i / 8 < Bytes(Size(|rows|, mi))
    ensures i < Size(|rows|, mi) <==> MORSEL_ROWS * mi + i < |rows|
    ensures i < Size(|rows|, mi) ==> Slice(rows, mi)[i] == rows[MORSEL_ROWS * mi + i]
  {
  }

  // ---- What is done when each morsel has been through some of the rules ------------------------------------

  /** A batch: its rules and what each of them answers on each row. */
  datatype Job = Job(n: nat, rules: seq<Rule>, start: Row, matches: seq<seq<bool>>) {
    ghost predicate Ok() {
      |matches| == |rules| && forall r | 0 <= r < |matches| :: |matches[r]| == n
    }

    /** How many rules each morsel has been through. */
    ghost predicate Stages(progress: seq<nat>) {
      |progress| == MorselCount(n) && forall mi | 0 <= mi < |progress| :: progress[mi] <= |rules|
    }

    function Hits(i: nat): (hits: seq<bool>)
      requires Ok() && i < n
      ensures |hits| == |rules|
    {
      seq(|matches|, r requires 0 <= r < |matches| => matches[r][i])
    }

    /** Row i after the first p rules. */
    function RowAt(i: nat, p: nat): Row
      requires Ok() && i < n && p <= |rules|
    {
      Reduced(rules, Hits(i), start, p)
    }

    /** Whether one of the first p rules matches row i. */
    ghost predicate Touched(i: nat, p: nat)
      requires Ok() && i < n && p <= |rules|
    {
      exists r :: 0 <= r < p && matches[r][i]
    }

    /** The rows matched by a rule their morsel has been through. */
    ghost function Union(progress: seq<nat>): (u: seq<bool>)
      requires Ok() && Stages(progress)
      ensures |u| == n && forall i | 0 <= i < n :: u[i] == Touched(i, progress[i / MORSEL_ROWS])
    {
      seq(n, i requires 0 <= i < n => Touched(i, progress[i / MORSEL_ROWS]))
    }

    /** Rule r's matches in the morsels that have been through it. */
    ghost function Written(progress: seq<nat>, r: nat): (w: seq<bool>)
      requires Ok() && Stages(progress) && r < |rules|
      ensures |w| == n && forall i | 0 <= i < n :: w[i] == (r < progress[i / MORSEL_ROWS] && matches[r][i])
    {
      seq(n, i requires 0 <= i < n => r < progress[i / MORSEL_ROWS] && matches[r][i])
    }

    /** Rule r's match counts by morsel. */
    ghost function Tallies(progress: seq<nat>, r: nat): (tallies: seq<nat>)
      requires Ok() && Stages(progress) && r < |rules|
      ensures |tallies| == |progress|
      ensures forall mi | 0 <= mi < |progress| :: tallies[mi] == if r < progress[mi] then Count(Slice(matches[r], mi)) else 0
    {
      seq(|progress|, mi requires 0 <= mi < |progress| => if r < progress[mi] then Count(Slice(matches[r], mi)) else 0)
    }
  }

  /** Bytes of other morsels do not see the difference. */
  lemma SameByte(byte: Byte, b: nat, u: seq<bool>, v: seq<bool>)
    requires |u| == |v| && EncodesByte(byte, b, u)
    requires forall i: nat | i < |u| && i / 8 == b :: u[i] == v[i]
    ensures EncodesByte(byte, b, v)
  {
    forall k: nat | k < 8 ensures Bit(byte, k) == (8 * b + k < |v| && v[8 * b + k]) {
      assert (8 * b + k) / 8 == b;
    }
  }

  lemma RowStep(job: Job, progress: seq<nat>, mi: nat, i: nat)
    requires job.Ok() && job.Stages(progress) && mi < |progress| && progress[mi] < |job.rules| && i < job.n
    ensures var p, m := progress[mi], Size(job.n, mi);
            var r0 := MORSEL_ROWS * mi;
            var before, after := job.RowAt(i, progress[i / MORSEL_ROWS]), job.RowAt(i, progress[mi := p + 1][i / MORSEL_ROWS]);
            if r0 <= i < r0 + m && Slice(job.matches[p], mi)[i - r0] then after == Match(job.rules[p], p, before)
            else after == before
  {
    var p, m, r0 := progress[mi], Size(job.n, mi), MORSEL_ROWS * mi;
    assert r0 <= i < r0 + m <==> i / MORSEL_ROWS == mi;
    if i / MORSEL_ROWS == mi {
      assert Slice(job.matches[p], mi)[i - r0] == job.matches[p][i] == job.Hits(i)[p];
    }
  }

  lemma UnionByte(job: Job, progress: seq<nat>, mi: nat, mask: seq<Byte>, b: nat, byte: Byte)
    requires job.Ok() && job.Stages(progress) && mi < |progress| && progress[mi] < |job.rules|
    requires Encodes(mask, Slice(job.matches[progress[mi]], mi))
    requires b < Bytes(job.n) && EncodesByte(byte, b, job.Union(progress))
    ensures var u := job.Union(progress[mi := progress[mi] + 1]);
            if b / 256 == mi then b - 256 * mi < |mask| && EncodesByte(OrByte(byte, mask[b - 256 * mi]), b, u)
            else EncodesByte(byte, b, u)
  {
    var u, v, r := job.Union(progress), job.Union(progress[mi := progress[mi] + 1]), progress[mi];
    MorselBytes(job.n, mi);
    if b / 256 != mi {
      forall i: nat | i < job.n && i / 8 == b ensures u[i] == v[i] {
        assert i / MORSEL_ROWS == b / 256;
      }
      SameByte(byte, b, u, v);
    } else {
      var j := b - 256 * mi;
      MorselByte(job.matches[r], mi, mask, j);
      forall k: nat | k < 8 ensures Bit(OrByte(byte, mask[j]), k) == (8 * b + k < job.n && v[8 * b + k]) {
        OrBit(byte, mask[j], k);
        var i := 8 * b + k;
        if i < job.n {
          assert i / MORSEL_ROWS == mi;
          assert job.Touched(i, r + 1) <==> job.Touched(i, r) || job.matches[r][i];
        }
      }
    }
  }

  lemma WrittenByte(job: Job, progress: seq<nat>, mi: nat, mask: seq<Byte>, r: nat, b: nat, byte: Byte)
    requires job.Ok() && job.Stages(progress) && mi < |progress| && progress[mi] < |job.rules|
    requires Encodes(mask, Slice(job.matches[progress[mi]], mi))
    requires r < |job.rules| && b < Bytes(job.n) && EncodesByte(byte, b, job.Written(progress, r))
    ensures var w := job.Written(progress[mi := progress[mi] + 1], r);
            if b / 256 == mi && r == progress[mi] then b - 256 * mi < |mask| && EncodesByte(mask[b - 256 * mi], b, w)
            else EncodesByte(byte, b, w)
  {
    hide EncodesByte, Slice, Job.Written, MorselCount, Bytes, Rows, Clean;
    MorselBytes(job.n, mi);
    if b / 256 == mi && r == progress[mi] {
      MorselByte(job.matches[r], mi, mask, b - 256 * mi);
      WrittenThere(job, progress, mi, r, b);
      SameByte(mask[b - 256 * mi], b, job.matches[r], job.Written(progress[mi := progress[mi] + 1], r));
    } else {
      WrittenElsewhere(job, progress, mi, r, b);
      SameByte(byte, b, job.Written(progress, r), job.Written(progress[mi := progress[mi] + 1], r));
    }
  }

  lemma WrittenThere(job: Job, progress: seq<nat>, mi: nat, r: nat, b: nat)
    requires job.Ok() && job.Stages(progress) && mi < |progress| && r == progress[mi] < |job.rules| && b / 256 == mi
    ensures forall i: nat | i < job.n && i / 8 == b :: job.matches[r][i] == job.Written(progress[mi := r + 1], r)[i]
  {
    forall i: nat | i < job.n && i / 8 == b ensures i / MORSEL_ROWS == mi {}
  }

  lemma WrittenElsewhere(job: Job, progress: seq<nat>, mi: nat, r: nat, b: nat)
    requires job.Ok() && job.Stages(progress) && mi < |progress| && progress[mi] < |job.rules| && r < |job.rules|
    requires b / 256 != mi || r != progress[mi]
    ensures forall i: nat | i < job.n && i / 8 == b ::
              job.Written(progress, r)[i] == job.Written(progress[mi := progress[mi] + 1], r)[i]
  {
    forall i: nat | i < job.n && i / 8 == b ensures i / MORSEL_ROWS == b / 256 {}
  }

  /** One more rule for one morsel adds its matches there and nothing else. */
  lemma TallyStep(job: Job, progress: seq<nat>, mi: nat, r: nat)
    requires job.Ok() && job.Stages(progress) && mi < |progress| && progress[mi] < |job.rules| && r < |job.rules|
    ensures Sum(job.Tallies(progress[mi := progress[mi] + 1], r))
            == Sum(job.Tallies(progress, r)) + if r == progress[mi] then Count(Slice(job.matches[r], mi)) else 0
  {
    var after := progress[mi := progress[mi] + 1];
    var before := job.Tallies(progress, r);
    SumUpdate(before, mi, job.Tallies(after, r)[mi]);
    assert job.Tallies(after, r) == before[mi := job.Tallies(after, r)[mi]];
  }

  // ---- Counting by morsel ----------------------------------------------------------------------------------

  lemma {:induction false} SliceCount(rows: seq<bool>, lo: nat, len: nat, k: nat)
    requires lo + len <= |rows| && k <= len
    ensures |IndicesBelow(rows, lo + k)| == |IndicesBelow(rows, lo)| + |IndicesBelow(rows[lo..lo + len], k)|
  {
    if k != 0 { SliceCount(rows, lo, len, k - 1); }
  }

  function FirstTallies(rows: seq<bool>, k: nat): (tallies: seq<nat>)
    requires k <= MorselCount(|rows|)
    ensures |tallies| == k && forall mi | 0 <= mi < k :: tallies[mi] == Count(Slice(rows, mi))
  {
    seq(k, mi requires 0 <= mi < k => Count(Slice(rows, mi)))
  }

  /** The morsels' counts add up to the count. */
  lemma {:induction false} TalliesAddUp(rows: seq<bool>, k: nat)
    requires k <= MorselCount(|rows|)
    ensures Sum(FirstTallies(rows, k))
            == |IndicesBelow(rows, if MORSEL_ROWS * k < |rows| then MORSEL_ROWS * k else |rows|)|
  {
    hide Sum, IndicesBelow, Slice, Count;
    if k == 0 {
      SumEmpty();
      assert FirstTallies(rows, 0) == [];
      NoneYet(rows);
    } else {
      TalliesAddUp(rows, k - 1);
      SumPush(FirstTallies(rows, k - 1), Count(Slice(rows, k - 1)));
      assert FirstTallies(rows, k) == FirstTallies(rows, k - 1) + [Count(Slice(rows, k - 1))];
      MorselCounted(rows, k - 1);
    }
  }

  lemma SumEmpty()
    ensures Sum([]) == 0
  {
  }

  lemma NoneYet(rows: seq<bool>)
    ensures |IndicesBelow(rows, 0)| == 0
  {
  }

  lemma MorselCounted(rows: seq<bool>, mi: nat)
    requires mi < MorselCount(|rows|)
    ensures MORSEL_ROWS * mi < |rows|
    ensures |IndicesBelow(rows, if MORSEL_ROWS * (mi + 1) < |rows| then MORSEL_ROWS * (mi + 1) else |rows|)|
            == |IndicesBelow(rows, MORSEL_ROWS * mi)| + Count(Slice(rows, mi))
  {
    hide IndicesBelow;
    SliceCount(rows, MORSEL_ROWS * mi, Size(|rows|, mi), Size(|rows|, mi));
  }

  /** When every morsel has been through every rule. */
  lemma AllDone(job: Job, progress: seq<nat>, r: nat)
    requires job.Ok() && job.Stages(progress) && r < |job.rules|
    requires forall mi | 0 <= mi < |progress| :: progress[mi] == |job.rules|
    ensures job.Written(progress, r) == job.matches[r]
    ensures Sum(job.Tallies(progress, r)) == Count(job.matches[r])
  {
    TalliesAddUp(job.matches[r], |progress|);
    assert job.Tallies(progress, r) == FirstTallies(job.matches[r], |progress|);
  }
}
