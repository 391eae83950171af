/** `evaluate_rules`: the arrays that the morsels fill, and the totals read off them at the end. */
module Batch {
  import opened Bits
  import opened ByteMask
  import opened MaskKernels
  import opened Decision
  import opened Sums
  import opened Morsels

  /** `or_into` on the morsel's bytes of the union. */
  method UniteInto(uni: array<Byte>, offset: nat, mask: array<Byte>)
    requires offset + mask.Length <= uni.Length && uni != mask
    modifies uni
    ensures forall b: nat | b < uni.Length ::
              uni[b] == if offset <= b < offset + mask.Length then OrByte(old(uni[b]), mask[b - offset]) else old(uni[b])
  {
    var j := 0;
    while j < mask.Length
      invariant 0 <= j <= mask.Length
      invariant forall b: nat | b < uni.Length ::
                  uni[b] == if offset <= b < offset + j then OrByte(old(uni[b]), mask[b - offset]) else old(uni[b])
    {
      uni[offset + j] := OrByte(uni[offset + j], mask[j]);
      j := j + 1;
    }
  }

  /** The copy of a morsel's final mask into its rule's output mask. */
  method CopyInto(out: array2<Byte>, r: nat, offset: nat, mask: array<Byte>)
    requires r < out.Length0 && offset + mask.Length <= out.Length1
    modifies out
    ensures forall q: nat, b: nat | q < out.Length0 && b < out.Length1 ::
              out[q, b] == if q == r && offset <= b < offset + mask.Length then mask[b - offset] else old(out[q, b])
  {
    var j := 0;
    while j < mask.Length
      invariant 0 <= j <= mask.Length
      invariant forall q: nat, b: nat | q < out.Length0 && b < out.Length1 ::
                  out[q, b] == if q == r && offset <= b < offset + j then mask[b - offset] else old(out[q, b])
    {
      out[r, offset + j] := mask[j];
      j := j + 1;
    }
  }

  /** Row k of the byte is one of the morsel's and was scanned. */
  predicate Scanned(byte: nat, left: nat, base: nat, m: nat, k: nat) {
    k < 8 && base + k < m && Bit(byte, k) && !Bit(left, k)
  }

  /** The reduction loop over one byte of a mask: lowest set digit first, cleared when done. */
  method ReduceByte(rows: array<Row>, rule: Rule, r: nat, byte: Byte, r0: nat, base: nat, m: nat)
    requires r0 + m <= rows.Length
    modifies rows
    ensures forall i: nat | i < rows.Length ::
              rows[i] == if r0 + base <= i < r0 + base + 8 && i < r0 + m && Bit(byte, i - r0 - base)
                         then Match(rule, r, old(rows[i])) else old(rows[i])
  {
    var left: nat := byte;
    while left != 0
      invariant left <= byte
      invariant forall k: nat | Bit(left, k) :: Bit(byte, k)
      invariant forall i: nat | i < rows.Length ::
                  rows[i] == if r0 + base <= i && Scanned(byte, left, base, m, i - r0 - base)
                             then Match(rule, r, old(rows[i])) else old(rows[i])
      decreases left
    {
      var bit := Ctz(left);
      BytePow();
      CtzBound(left, 8);
      forall k: nat ensures Bit(Clear(left), k) == (k != bit && Bit(left, k)) { ClearLowest(left, k); }
      ClearLowest(left, 0);
      var j := base + bit;
      if j >= m {
        forall k: nat | k < 8 && base + k < m ensures !Bit(left, k) { CtzLowest(left, k); }
        break;
      }
      rows[r0 + j] := Match(rule, r, rows[r0 + j]);
      left := Clear(left);
    }
    if left == 0 {
      forall k: nat ensures !Bit(left, k) { ZeroBit(k); }
    }
  }

  /** The reduction loop over a morsel's mask. */
  method Reduce(rows: array<Row>, rule: Rule, r: nat, mask: array<Byte>, r0: nat, m: nat, ghost hits: seq<bool>)
    requires m == |hits| && r0 + m <= rows.Length && Encodes(mask[..], hits)
    modifies rows
    ensures forall i: nat | i < rows.Length ::
              rows[i] == if r0 <= i < r0 + |hits| && hits[i - r0] then Match(rule, r, old(rows[i])) else old(rows[i])
  {
    EncodesByBytes(mask[..], hits);
    hide Match, Bit, Encodes, EncodesByte;
    var b := 0;
    while b < mask.Length
      invariant 0 <= b <= mask.Length
      invariant forall i: nat | i < rows.Length ::
                  rows[i] == if r0 <= i < r0 + |hits| && i < r0 + 8 * b && hits[i - r0]
                             then Match(rule, r, old(rows[i])) else old(rows[i])
    {
      assert EncodesByte(mask[..][b], b, hits);
      ReduceByte(rows, rule, r, mask[b], r0, 8 * b, m);
      b := b + 1;
    }
  }

  function Column(counts: seq<seq<nat>>, r: nat): (column: seq<nat>)
    requires forall t | 0 <= t < |counts| :: r < |counts[t]|
    ensures |column| == |counts| && forall t | 0 <= t < |counts| :: column[t] == counts[t][r]
  {
    seq(|counts|, t requires 0 <= t < |counts| => counts[t][r])
  }

  class Evaluation {
    const n: nat
    const rules: seq<Rule>
    ghost const job: Job
    const rows: array<Row>
    const uni: array<Byte>
    const out: array2<Byte>
    /** One counter per thread and rule. */
    var counts: seq<seq<nat>>
    /** How many rules each morsel has been through. */
    var progress: seq<nat>

    ghost predicate Shape() {
      && job.Ok() && job.n == n && job.rules == rules
      && rows.Length == n && uni.Length == Bytes(n)
      && out.Length0 == |rules| && out.Length1 == Bytes(n)
    }

    // What the arrays hold when the morsels have been through p of the rules.

    ghost predicate RowsAre(p: seq<nat>)
      requires Shape() && job.Stages(p)
      reads rows
    {
      forall i: nat | i < n :: rows[i] == job.RowAt(i, p[i / MORSEL_ROWS])
    }

    ghost predicate UnionIs(p: seq<nat>)
      requires Shape() && job.Stages(p)
      reads uni
    {
      forall b: nat | b < uni.Length :: EncodesByte(uni[b], b, job.Union(p))
    }

    ghost predicate MasksAre(p: seq<nat>)
      requires Shape() && job.Stages(p)
      reads out
    {
      forall r: nat, b: nat | r < |rules| && b < out.Length1 :: EncodesByte(out[r, b], b, job.Written(p, r))
    }

    ghost predicate CountsAre(p: seq<nat>)
      requires Shape() && job.Stages(p)
      reads this`counts
    {
      && (forall t | 0 <= t < |counts| :: |counts[t]| == |rules|)
      && forall r: nat | r < |rules| :: Sum(Column(counts, r)) == Sum(job.Tallies(p, r))
    }

    /** Every array holds exactly what the rules done so far put there. */
    ghost predicate Valid()
      reads this`progress, this`counts, rows, uni, out
    {
      Shape() && job.Stages(progress) && RowsAre(progress) && UnionIs(progress) && MasksAre(progress) && CountsAre(progress)
    }

    constructor (n: nat, rules: seq<Rule>, start: Row, threads: nat, ghost matches: seq<seq<bool>>)
      requires Job(n, rules, start, matches).Ok()
      ensures Valid() && this.n == n && this.rules == rules && job == Job(n, rules, start, matches)
      ensures |counts| == threads && (forall mi | 0 <= mi < |progress| :: progress[mi] == 0)
      ensures fresh(rows) && fresh(uni) && fresh(out)
    {
      this.n := n;
      this.rules := rules;
      job := Job(n, rules, start, matches);
      rows := new Row[n](_ => start);
      uni := new Byte[Bytes(n)](_ => 0);
      out := new Byte[|rules|, Bytes(n)]((_, _) => 0);
      counts := seq(threads, _ => seq(|rules|, _ => 0));
      progress := seq(MorselCount(n), _ => 0);
      new;
      forall k: nat ensures !Bit(0, k) { ZeroBit(k); }
      forall r: nat | r < |rules| ensures Sum(Column(counts, r)) == Sum(job.Tallies(progress, r)) {
        SumNone(Column(counts, r));
        SumNone(job.Tallies(progress, r));
      }
    }

    /** A morsel with a rule ahead of it, and that rule's final mask there. */
    ghost predicate Ready(mi: nat, mask: array<Byte>)
      reads this`progress, mask
    {
      Shape() && job.Stages(progress) && mi < |progress| && progress[mi] < |rules| && Encodes(mask[..], Slice(job.matches[progress[mi]], mi))
    }

    ghost function After(mi: nat): (p: seq<nat>)
      requires Shape() && job.Stages(progress) && mi < |progress| && progress[mi] < |rules|
      reads this`progress
      ensures job.Stages(p)
    {
      progress[mi := progress[mi] + 1]
    }

    /** One pass of the rule loop in `do_morsel`: thread t takes morsel mi through its next rule, whose
        final mask is given. */
    method NextRule(t: nat, mi: nat, mask: array<Byte>)
      requires Valid() && Ready(mi, mask) && t < |counts| && mask != uni
      modifies this`counts, this`progress, rows, uni, out
      ensures Valid() && progress == old(After(mi)) && |counts| == |old(counts)|
    {
      hide RowsAre, UnionIs, MasksAre, CountsAre, Encodes, Slice;
      CopyMask(mi, mask);
      CountMatches(t, mi, mask);
      UniteMask(mi, mask);
      if !rules[progress[mi]].shadow {
        ReduceMorsel(mi, mask);
      } else {
        ShadowKeeps(mi);
      }
      progress := progress[mi := progress[mi] + 1];
    }

    method CopyMask(mi: nat, mask: array<Byte>)
      requires Ready(mi, mask) && MasksAre(progress)
      modifies out
      ensures MasksAre(After(mi))
    {
      MorselBytes(n, mi);
      var offset := MORSEL_ROWS * mi / 8;
      assert offset == 256 * mi;
      CopyInto(out, progress[mi], offset, mask);
      hide EncodesByte, Encodes, Job.Written, Size, MorselCount, Bytes;
      forall q: nat, b: nat | q < |rules| && b < out.Length1 ensures EncodesByte(out[q, b], b, job.Written(After(mi), q)) {
        WrittenByte(job, progress, mi, mask[..], q, b, old(out[q, b]));
      }
    }

    method UniteMask(mi: nat, mask: array<Byte>)
      requires Ready(mi, mask) && UnionIs(progress) && mask != uni
      modifies uni
      ensures UnionIs(After(mi))
    {
      MorselBytes(n, mi);
      var offset := MORSEL_ROWS * mi / 8;
      assert offset == 256 * mi;
      UniteInto(uni, offset, mask);
      hide EncodesByte, Encodes, OrByte, Job.Union, Size, MorselCount, Bytes;
      forall b: nat | b < uni.Length ensures EncodesByte(uni[b], b, job.Union(After(mi))) {
        UnionByte(job, progress, mi, mask[..], b, old(uni[b]));
      }
    }

    method ReduceMorsel(mi: nat, mask: array<Byte>)
      requires Ready(mi, mask) && RowsAre(progress)
      modifies rows
      ensures RowsAre(After(mi))
    {
      var r := progress[mi];
      Reduce(rows, rules[r], r, mask, MORSEL_ROWS * mi, Size(n, mi), Slice(job.matches[r], mi));
      hide Match, Job.RowAt, Encodes, Slice;
      forall i: nat | i < n ensures rows[i] == job.RowAt(i, After(mi)[i / MORSEL_ROWS]) {
        RowStep(job, progress, mi, i);
      }
    }

    /** A shadow rule is counted and copied but decides nothing. */
    lemma ShadowKeeps(mi: nat)
      requires Shape() && job.Stages(progress) && mi < |progress| && progress[mi] < |rules| && rules[progress[mi]].shadow && RowsAre(progress)
      ensures RowsAre(After(mi))
    {
      forall i: nat | i < n ensures rows[i] == job.RowAt(i, After(mi)[i / MORSEL_ROWS]) {
        RowStep(job, progress, mi, i);
      }
    }

    method CountMatches(t: nat, mi: nat, mask: array<Byte>)
      requires Ready(mi, mask) && CountsAre(progress) && t < |counts|
      modifies this`counts
      ensures CountsAre(After(mi)) && |counts| == |old(counts)|
    {
      var r := progress[mi];
      var matched := CountSetBits(mask);
      assert matched == Count(Slice(job.matches[r], mi));
      ghost var before := counts;
      var total: nat := counts[t][r] + matched;
      var mine: seq<nat> := counts[t][r := total];
      counts := counts[t := mine];
      hide Sum, Count, Job.Tallies;
      forall q: nat | q < |rules| ensures Sum(Column(counts, q)) == Sum(job.Tallies(After(mi), q)) {
        SumUpdate(Column(before, q), t, counts[t][q]);
        assert Column(counts, q) == Column(before, q)[t := counts[t][q]];
        TallyStep(job, progress, mi, q);
      }
    }
  }

  // ---- Any schedule ------------------------------------------------------------------------------------------

  /** A thread takes a morsel through its next rule. */
  datatype Turn = Turn(thread: nat, morsel: nat)

  function Turns(schedule: seq<Turn>, mi: nat): nat {
    if schedule == [] then 0
    else Turns(schedule[..|schedule| - 1], mi) + if schedule[|schedule| - 1].morsel == mi then 1 else 0
  }

  /** Any interleaving of the morsels' rule loops, by any number of threads. */
  ghost predicate Complete(schedule: seq<Turn>, threads: nat, morsels: nat, rules: nat) {
    && (forall k | 0 <= k < |schedule| :: schedule[k].thread < threads && schedule[k].morsel < morsels)
    && (forall mi: nat | mi < morsels :: Turns(schedule, mi) == rules)
  }

  lemma {:induction false} TurnsGrow(schedule: seq<Turn>, k: nat, mi: nat)
    requires k <= |schedule|
    ensures Turns(schedule[..k], mi) <= Turns(schedule, mi)
    decreases |schedule|
  {
    if k < |schedule| {
      var last := |schedule| - 1;
      assert schedule[..last][..k] == schedule[..k];
      TurnsGrow(schedule[..last], k, mi);
    } else {
      assert schedule[..k] == schedule;
    }
  }

  /** The next turn's morsel still has a rule ahead. */
  lemma TurnsNext(schedule: seq<Turn>, k: nat, mi: nat)
    requires k < |schedule|
    ensures Turns(schedule[..k + 1], mi) == Turns(schedule[..k], mi) + if schedule[k].morsel == mi then 1 else 0
    ensures Turns(schedule[..k + 1], mi) <= Turns(schedule, mi)
  {
    assert schedule[..k + 1][..k] == schedule[..k];
    TurnsGrow(schedule, k + 1, mi);
  }

  /** The sum of the threads' counters for each rule. */
  method TotalCounts(counts: seq<seq<nat>>, rules: nat) returns (totals: seq<nat>)
    requires forall t | 0 <= t < |counts| :: |counts[t]| == rules
    ensures |totals| == rules && forall r | 0 <= r < rules :: totals[r] == Sum(Column(counts, r))
  {
    totals := seq(rules, _ => 0);
    var t := 0;
    while t < |counts|
      invariant 0 <= t <= |counts| && |totals| == rules
      invariant forall r | 0 <= r < rules :: totals[r] == Sum(Column(counts[..t], r))
    {
      ghost var before := totals;
      var line := counts[t];
      totals := seq(rules, r requires 0 <= r < rules && |totals| == |line| == rules => totals[r] + line[r]);
      forall r | 0 <= r < rules ensures totals[r] == Sum(Column(counts[..t + 1], r)) {
        SumPush(Column(counts[..t], r), line[r]);
        assert Column(counts[..t + 1], r) == Column(counts[..t], r) + [line[r]];
      }
      t := t + 1;
    }
    assert counts[..|counts|] == counts;
  }

  /** Whatever the interleaving, each row ends as if its rules had been applied one after the other, each
      rule's mask and count are those of its matches, and the union is the rows that some rule matches. */
  method EvaluateRules(e: Evaluation, schedule: seq<Turn>, masks: seq<seq<array<Byte>>>) returns (totals: seq<nat>, matched: nat)
    requires e.Valid() && (forall mi | 0 <= mi < |e.progress| :: e.progress[mi] == 0)
    requires Complete(schedule, |e.counts|, |e.progress|, |e.rules|)
    requires |masks| == |e.progress| && forall mi | 0 <= mi < |masks| :: |masks[mi]| == |e.rules|
    requires forall mi, r | 0 <= mi < |masks| && 0 <= r < |e.rules| ::
               masks[mi][r] != e.uni && Encodes(masks[mi][r][..], Slice(e.job.matches[r], mi))
    modifies e`counts, e`progress, e.rows, e.uni, e.out
    ensures e.Valid()
    ensures forall i: nat | i < e.n :: e.rows[i] == e.job.RowAt(i, |e.rules|)
    ensures Encodes(e.uni[..], AnyMatch(e.job))
    ensures forall r: nat, b: nat | r < |e.rules| && b < e.out.Length1 :: EncodesByte(e.out[r, b], b, e.job.matches[r])
    ensures |totals| == |e.rules| && forall r | 0 <= r < |e.rules| :: totals[r] == Count(e.job.matches[r])
    ensures matched == Count(AnyMatch(e.job))
  {
    var k := 0;
    while k < |schedule|
      invariant 0 <= k <= |schedule| && e.Valid()
      invariant |e.progress| == old(|e.progress|) && |e.counts| == old(|e.counts|)
      invariant forall mi: nat | mi < |e.progress| :: e.progress[mi] == Turns(schedule[..k], mi)
      invariant forall mi, r | 0 <= mi < |masks| && 0 <= r < |e.rules| ::
                  Encodes(masks[mi][r][..], Slice(e.job.matches[r], mi))
    {
      var mi := schedule[k].morsel;
      forall q: nat | q < |e.progress|
        ensures Turns(schedule[..k + 1], q) == Turns(schedule[..k], q) + if mi == q then 1 else 0
        ensures Turns(schedule[..k + 1], q) <= |e.rules|
      {
        TurnsNext(schedule, k, q);
      }
      e.NextRule(schedule[k].thread, mi, masks[mi][e.progress[mi]]);
      k := k + 1;
    }
    assert schedule[..k] == schedule;
    totals := TotalCounts(e.counts, |e.rules|);
    Finished(e.job, e.progress);
    EncodesByBytes(e.uni[..], AnyMatch(e.job));
    matched := CountSetBits(e.uni);
  }

  /** The rows that some rule matches. */
  ghost function AnyMatch(job: Job): (u: seq<bool>)
    requires job.Ok()
    ensures |u| == job.n && forall i | 0 <= i < job.n :: u[i] <==> exists r :: 0 <= r < |job.rules| && job.matches[r][i]
  {
    seq(job.n, i requires 0 <= i < job.n => exists r :: 0 <= r < |job.rules| && job.matches[r][i])
  }

  lemma Finished(job: Job, progress: seq<nat>)
    requires job.Ok() && job.Stages(progress)
    requires forall mi | 0 <= mi < |progress| :: progress[mi] == |job.rules|
    ensures job.Union(progress) == AnyMatch(job)
    ensures forall i: nat | i < job.n :: progress[i / MORSEL_ROWS] == |job.rules|
    ensures forall r: nat | r < |job.rules| :: job.Written(progress, r) == job.matches[r]
    ensures forall r: nat | r < |job.rules| :: Sum(job.Tallies(progress, r)) == Count(job.matches[r])
  {
    forall r: nat | r < |job.rules|
      ensures job.Written(progress, r) == job.matches[r] && Sum(job.Tallies(progress, r)) == Count(job.matches[r]) {
      AllDone(job, progress, r);
    }
    forall i: nat | i < job.n ensures job.Union(progress)[i] == AnyMatch(job)[i] {
      assert job.Touched(i, |job.rules|) <==> exists r :: 0 <= r < |job.rules| && job.matches[r][i];
    }
  }
}
