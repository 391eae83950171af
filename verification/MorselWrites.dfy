/** The morsels' work write by write: every thread takes its own morsels through all the rules, and the single writes
    of different threads interleave in any way. */
module MorselWrites {
  import opened Bits
  import opened ByteMask
  import opened MaskKernels
  import opened Decision
  import opened Sums
  import opened Morsels
  import B = Batch

  /** Where a write goes: a row's accumulators, a byte of the union or of a rule's mask, a thread's counter. */
  datatype Place = RowPlace(i: nat) | UnionPlace(b: nat) | MaskPlace(r: nat, b: nat) | CounterPlace(t: nat, r: nat)

  datatype Effect = Reduce(r: nat) | Unite(bits: Byte) | Store(bits: Byte) | Tally(k: nat)

  datatype Write = Write(at: Place, effect: Effect)

  datatype Value = Outcome(row: Row) | Packed(byte: Byte) | Number(n: nat)

  type Memory = Place -> Value

  function Applied(job: Job, e: Effect, v: Value): Value {
    match e
    case Reduce(r) => if v.Outcome? && r < |job.rules| then Outcome(Match(job.rules[r], r, v.row)) else v
    case Unite(bits) => if v.Packed? then Packed(OrByte(v.byte, bits)) else v
    case Store(bits) => Packed(bits)
    case Tally(k) => if v.Number? then Number(v.n + k) else v
  }

  /** The memory after some writes. */
  function After(job: Job, trace: seq<Write>, mem: Memory): Memory {
    if trace == [] then mem
    else
      var before, last := After(job, trace[..|trace| - 1], mem), trace[|trace| - 1];
      (p: Place) => if p == last.at then Applied(job, last.effect, before(p)) else before(p)
  }

  /** The effects on one place, in order. */
  function EffectsAt(trace: seq<Write>, p: Place): seq<Effect> {
    if trace == [] then []
    else
      var last := trace[|trace| - 1];
      EffectsAt(trace[..|trace| - 1], p) + if last.at == p then [last.effect] else []
  }

  function Folded(job: Job, effects: seq<Effect>, v: Value): Value {
    if effects == [] then v else Applied(job, effects[|effects| - 1], Folded(job, effects[..|effects| - 1], v))
  }

  /** What a place holds depends on the writes to it alone. */
  lemma {:induction false} AfterAt(job: Job, trace: seq<Write>, mem: Memory, p: Place)
    ensures After(job, trace, mem)(p) == Folded(job, EffectsAt(trace, p), mem(p))
  {
    if trace != [] {
      var front, last := trace[..|trace| - 1], trace[|trace| - 1];
      AfterAt(job, front, mem, p);
      if last.at == p { assert (EffectsAt(front, p) + [last.effect])[..|EffectsAt(front, p)|] == EffectsAt(front, p); }
      if last.at != p { assert EffectsAt(trace, p) == EffectsAt(front, p); }
    }
  }

  lemma {:induction false} EffectsConcat(a: seq<Write>, b: seq<Write>, p: Place)
    ensures EffectsAt(a + b, p) == EffectsAt(a, p) + EffectsAt(b, p)
    decreases |b|
  {
    if b == [] {
      assert a + b == a;
    } else {
      var last := |b| - 1;
      assert (a + b)[..|a + b| - 1] == a + b[..last];
      EffectsConcat(a, b[..last], p);
    }
  }

  // ---- One pass -------------------------------------------------------------------------------------------------

  /** The copy of a final mask to its rule's output. */
  function Stores(mi: nat, r: nat, mask: seq<Byte>): seq<Write> {
    seq(|mask|, j requires 0 <= j < |mask| => Write(MaskPlace(r, 256 * mi + j), Store(mask[j])))
  }

  function Unites(mi: nat, mask: seq<Byte>): seq<Write> {
    seq(|mask|, j requires 0 <= j < |mask| => Write(UnionPlace(256 * mi + j), Unite(mask[j])))
  }

  /** The reductions of the matched rows among the morsel's first k. */
  function Reductions(mi: nat, r: nat, hits: seq<bool>, k: nat): seq<Write>
    requires k <= |hits|
  {
    if k == 0 then []
    else Reductions(mi, r, hits, k - 1) + if hits[k - 1] then [Write(RowPlace(MORSEL_ROWS * mi + k - 1), Reduce(r))] else []
  }

  /** Each morsel's final mask for each rule. */
  type Masks = seq<seq<seq<Byte>>>

  ghost predicate Given(job: Job, masks: Masks) {
    && job.Ok() && |masks| == MorselCount(job.n)
    && forall mi: nat, r: nat | mi < |masks| && r < |job.rules| ::
         |masks[mi]| == |job.rules| && Encodes(masks[mi][r], Slice(job.matches[r], mi))
  }

  lemma GivenMask(job: Job, masks: Masks, mi: nat, r: nat)
    requires Given(job, masks) && mi < |masks| && r < |job.rules|
    ensures r < |masks[mi]| && r < |job.matches| && mi < MorselCount(|job.matches[r]|) && Encodes(masks[mi][r], Slice(job.matches[r], mi))
  {
  }

  /** Thread t takes morsel mi through rule r: copy, count, unite, and reduce unless the rule is a shadow. */
  function Pass(job: Job, masks: Masks, t: nat, mi: nat, r: nat): seq<Write>
    requires Given(job, masks) && mi < |masks| && r < |job.rules|
  {
    GivenMask(job, masks, mi, r);
    var mask, hits := masks[mi][r], Slice(job.matches[r], mi);
    Stores(mi, r, mask) + [Write(CounterPlace(t, r), Tally(Count(hits)))] + Unites(mi, mask)
    + if job.rules[r].shadow then [] else Reductions(mi, r, hits, |hits|)
  }

  /** The first k rules of the rule loop. */
  function Passes(job: Job, masks: Masks, t: nat, mi: nat, k: nat): seq<Write>
    requires Given(job, masks) && mi < |masks| && k <= |job.rules|
  {
    if k == 0 then [] else Passes(job, masks, t, mi, k - 1) + Pass(job, masks, t, mi, k - 1)
  }

  /** A thread's morsels, one after the other. */
  function Work(job: Job, masks: Masks, t: nat, list: seq<nat>): seq<Write>
    requires Given(job, masks) && forall k | 0 <= k < |list| :: list[k] < |masks|
  {
    if list == [] then []
    else
      var last := list[|list| - 1];
      Work(job, masks, t, list[..|list| - 1]) + Passes(job, masks, t, last, |job.rules|)
  }

  lemma {:induction false} SpreadEffects(writes: seq<Write>, k: nat, p: Place)
    requires k < |writes| && writes[k].at == p && forall j | 0 <= j < |writes| && j != k :: writes[j].at != p
    ensures EffectsAt(writes, p) == [writes[k].effect]
  {
    var last := |writes| - 1;
    if k == last {
      NoEffects(writes[..last], p);
    } else {
      SpreadEffects(writes[..last], k, p);
    }
  }

  lemma {:induction false} NoEffects(writes: seq<Write>, p: Place)
    requires forall j | 0 <= j < |writes| :: writes[j].at != p
    ensures EffectsAt(writes, p) == []
  {
    if writes != [] { NoEffects(writes[..|writes| - 1], p); }
  }

  lemma {:induction false} ReductionsAt(mi: nat, r: nat, hits: seq<bool>, k: nat, p: Place)
    requires k <= |hits|
    ensures EffectsAt(Reductions(mi, r, hits, k), p)
         == if p.RowPlace? && MORSEL_ROWS * mi <= p.i < MORSEL_ROWS * mi + k && hits[p.i - MORSEL_ROWS * mi] then [Reduce(r)] else []
  {
    if k != 0 {
      var front := Reductions(mi, r, hits, k - 1);
      ReductionsAt(mi, r, hits, k - 1, p);
      if hits[k - 1] {
        var last := Write(RowPlace(MORSEL_ROWS * mi + k - 1), Reduce(r));
        assert (front + [last])[..|front|] == front;
      } else {
        assert front + [] == front;
      }
    }
  }

  /** What one pass does to a place. */
  function PassEffects(job: Job, masks: Masks, t: nat, mi: nat, r: nat, p: Place): seq<Effect>
    requires Given(job, masks) && mi < |masks| && r < |job.rules|
  {
    GivenMask(job, masks, mi, r);
    var mask, hits := masks[mi][r], Slice(job.matches[r], mi);
    match p
    case MaskPlace(q, b) => if q == r && 256 * mi <= b < 256 * mi + |mask| then [Store(mask[b - 256 * mi])] else []
    case CounterPlace(u, q) => if u == t && q == r then [Tally(Count(hits))] else []
    case UnionPlace(b) => if 256 * mi <= b < 256 * mi + |mask| then [Unite(mask[b - 256 * mi])] else []
    case RowPlace(i) =>
      if !job.rules[r].shadow && MORSEL_ROWS * mi <= i < MORSEL_ROWS * mi + |hits| && hits[i - MORSEL_ROWS * mi] then [Reduce(r)] else []
  }

  lemma StoresAt(mi: nat, r: nat, mask: seq<Byte>, p: Place)
    ensures EffectsAt(Stores(mi, r, mask), p)
         == if p.MaskPlace? && p.r == r && 256 * mi <= p.b < 256 * mi + |mask| then [Store(mask[p.b - 256 * mi])] else []
  {
    if p.MaskPlace? && p.r == r && 256 * mi <= p.b < 256 * mi + |mask| {
      SpreadEffects(Stores(mi, r, mask), p.b - 256 * mi, p);
    } else {
      NoEffects(Stores(mi, r, mask), p);
    }
  }

  lemma UnitesAt(mi: nat, mask: seq<Byte>, p: Place)
    ensures EffectsAt(Unites(mi, mask), p)
         == if p.UnionPlace? && 256 * mi <= p.b < 256 * mi + |mask| then [Unite(mask[p.b - 256 * mi])] else []
  {
    if p.UnionPlace? && 256 * mi <= p.b < 256 * mi + |mask| {
      SpreadEffects(Unites(mi, mask), p.b - 256 * mi, p);
    } else {
      NoEffects(Unites(mi, mask), p);
    }
  }

  lemma OneWrite(w: Write, p: Place)
    ensures EffectsAt([w], p) == if w.at == p then [w.effect] else []
  {
    assert [w][..0] == [];
    assert EffectsAt([], p) == [];
  }

  lemma PassAt(job: Job, masks: Masks, t: nat, mi: nat, r: nat, p: Place)
    requires Given(job, masks) && mi < |masks| && r < |job.rules|
    ensures EffectsAt(Pass(job, masks, t, mi, r), p) == PassEffects(job, masks, t, mi, r, p)
  {
    hide Given, EffectsAt, Stores, Unites, Reductions, Encodes, Slice, Count;
    GivenMask(job, masks, mi, r);
    var mask, hits := masks[mi][r], Slice(job.matches[r], mi);
    var a, b, c := Stores(mi, r, mask), [Write(CounterPlace(t, r), Tally(Count(hits)))], Unites(mi, mask);
    var d := if job.rules[r].shadow then [] else Reductions(mi, r, hits, |hits|);
    EffectsConcat(a + b + c, d, p);
    EffectsConcat(a + b, c, p);
    EffectsConcat(a, b, p);
    StoresAt(mi, r, mask, p);
    OneWrite(b[0], p);
    UnitesAt(mi, mask, p);
    ReductionsAt(mi, r, hits, |hits|, p);
    NoEffects([], p);
  }

  // ---- A thread's work on a place ------------------------------------------------------------------------------------

  /** The morsel that a place belongs to. */
  predicate Belongs(p: Place, mi: nat) {
    match p
    case RowPlace(i) => i / MORSEL_ROWS == mi
    case UnionPlace(b) => b / 256 == mi
    case MaskPlace(_, b) => b / 256 == mi
    case CounterPlace(_, _) => false
  }

  lemma MaskLength(job: Job, masks: Masks, mi: nat, r: nat)
    requires Given(job, masks) && mi < |masks| && r < |job.rules|
    ensures r < |masks[mi]| && |masks[mi][r]| <= 256 && r < |job.matches| && mi < MorselCount(|job.matches[r]|)
    ensures |Slice(job.matches[r], mi)| <= MORSEL_ROWS
  {
    GivenMask(job, masks, mi, r);
  }

  /** A pass of another morsel leaves the place alone. */
  lemma ForeignPass(job: Job, masks: Masks, t: nat, mi: nat, r: nat, p: Place)
    requires Given(job, masks) && mi < |masks| && r < |job.rules| && !p.CounterPlace? && !Belongs(p, mi)
    ensures EffectsAt(Pass(job, masks, t, mi, r), p) == []
  {
    hide Given, EffectsAt, Pass, Slice;
    PassAt(job, masks, t, mi, r, p);
    MaskLength(job, masks, mi, r);
  }

  lemma {:induction false} ForeignPasses(job: Job, masks: Masks, t: nat, mi: nat, k: nat, p: Place)
    requires Given(job, masks) && mi < |masks| && k <= |job.rules| && !p.CounterPlace? && !Belongs(p, mi)
    ensures EffectsAt(Passes(job, masks, t, mi, k), p) == []
  {
    hide Given, Belongs, Pass;
    if k != 0 {
      ForeignPasses(job, masks, t, mi, k - 1, p);
      ForeignPass(job, masks, t, mi, k - 1, p);
      EffectsConcat(Passes(job, masks, t, mi, k - 1), Pass(job, masks, t, mi, k - 1), p);
    }
  }

  ghost predicate NoRepeats(list: seq<nat>) {
    forall i, j | 0 <= i < j < |list| :: list[i] != list[j]
  }

  /** A thread's effects on a morsel's place are those of that morsel's passes. */
  lemma {:induction false} WorkAt(job: Job, masks: Masks, t: nat, list: seq<nat>, mi: nat, p: Place)
    requires Given(job, masks) && (forall k | 0 <= k < |list| :: list[k] < |masks|) && NoRepeats(list)
    requires mi < |masks| && Belongs(p, mi)
    ensures EffectsAt(Work(job, masks, t, list), p)
         == if mi in list then EffectsAt(Passes(job, masks, t, mi, |job.rules|), p) else []
  {
    hide Given, Passes;
    if list != [] {
      var front, last := list[..|list| - 1], list[|list| - 1];
      assert list == front + [last];
      WorkAt(job, masks, t, front, mi, p);
      EffectsConcat(Work(job, masks, t, front), Passes(job, masks, t, last, |job.rules|), p);
      if last == mi {
        assert mi !in front;
        assert [] + EffectsAt(Passes(job, masks, t, mi, |job.rules|), p) == EffectsAt(Passes(job, masks, t, mi, |job.rules|), p);
      } else {
        ForeignPasses(job, masks, t, last, |job.rules|, p);
      }
    } else {
      NoEffects([], p);
    }
  }

  // ---- What the effects come to ---------------------------------------------------------------------------------------

  lemma FoldOne(job: Job, effects: seq<Effect>, more: seq<Effect>, v: Value)
    requires |more| <= 1
    ensures Folded(job, effects + more, v) == if more == [] then Folded(job, effects, v) else Applied(job, more[0], Folded(job, effects, v))
  {
    if more == [] {
      assert effects + more == effects;
    } else {
      assert (effects + more)[..|effects + more| - 1] == effects;
    }
  }

  /** One more rule's effects on a place. */
  lemma FoldPasses(job: Job, masks: Masks, t: nat, mi: nat, k: nat, p: Place, v: Value)
    requires Given(job, masks) && mi < |masks| && 0 < k <= |job.rules|
    ensures Folded(job, EffectsAt(Passes(job, masks, t, mi, k), p), v)
         == var before := Folded(job, EffectsAt(Passes(job, masks, t, mi, k - 1), p), v);
            var more := PassEffects(job, masks, t, mi, k - 1, p);
            if more == [] then before else Applied(job, more[0], before)
  {
    hide Given, Folded, EffectsAt, Pass, Slice;
    EffectsConcat(Passes(job, masks, t, mi, k - 1), Pass(job, masks, t, mi, k - 1), p);
    PassAt(job, masks, t, mi, k - 1, p);
    FoldOne(job, EffectsAt(Passes(job, masks, t, mi, k - 1), p), PassEffects(job, masks, t, mi, k - 1, p), v);
  }

  lemma NothingFolded(job: Job, masks: Masks, t: nat, mi: nat, p: Place, v: Value)
    requires Given(job, masks) && mi < |masks|
    ensures Folded(job, EffectsAt(Passes(job, masks, t, mi, 0), p), v) == v
  {
    NoEffects([], p);
  }

  /** A row after its morsel's first k rules. */
  lemma {:induction false} RowFolded(job: Job, masks: Masks, t: nat, mi: nat, k: nat, i: nat)
    requires Given(job, masks) && mi < |masks| && k <= |job.rules| && i < job.n && i / MORSEL_ROWS == mi
    ensures Folded(job, EffectsAt(Passes(job, masks, t, mi, k), RowPlace(i)), Outcome(job.start)) == Outcome(job.RowAt(i, k))
    decreases k
  {
    hide EffectsAt, Passes, Folded, Encodes;
    if k == 0 {
      NothingFolded(job, masks, t, mi, RowPlace(i), Outcome(job.start));
    } else {
      RowFolded(job, masks, t, mi, k - 1, i);
      FoldPasses(job, masks, t, mi, k, RowPlace(i), Outcome(job.start));
      GivenMask(job, masks, mi, k - 1);
      RowHit(job, mi, k - 1, i);
    }
  }

  lemma RowHit(job: Job, mi: nat, r: nat, i: nat)
    requires job.Ok() && r < |job.rules| && mi < MorselCount(job.n) && i < job.n && i / MORSEL_ROWS == mi
    ensures |Slice(job.matches[r], mi)| > i - MORSEL_ROWS * mi >= 0
    ensures Slice(job.matches[r], mi)[i - MORSEL_ROWS * mi] == job.Hits(i)[r]
  {
  }

  /** A byte of the union after its morsel's first k rules. */
  ghost function Stage(job: Job, mi: nat, k: nat): (progress: seq<nat>)
    requires job.Ok() && mi < MorselCount(job.n) && k <= |job.rules|
    ensures job.Stages(progress) && mi < |progress| && progress[mi] == k
  {
    seq(MorselCount(job.n), q => if q == mi then k else 0)
  }

  lemma {:induction false} UnionFolded(job: Job, masks: Masks, t: nat, mi: nat, k: nat, b: nat)
    requires Given(job, masks) && mi < |masks| && k <= |job.rules| && b < Bytes(job.n) && b / 256 == mi
    ensures var v := Folded(job, EffectsAt(Passes(job, masks, t, mi, k), UnionPlace(b)), Packed(0));
            v.Packed? && EncodesByte(v.byte, b, job.Union(Stage(job, mi, k)))
    decreases k
  {
    hide EffectsAt, Passes, Folded, Encodes, EncodesByte, Slice, Job.Union, Bytes;
    if k == 0 {
      NothingFolded(job, masks, t, mi, UnionPlace(b), Packed(0));
      NoUnion(job, mi, b);
    } else {
      UnionFolded(job, masks, t, mi, k - 1, b);
      FoldPasses(job, masks, t, mi, k, UnionPlace(b), Packed(0));
      GivenMask(job, masks, mi, k - 1);
      var v := Folded(job, EffectsAt(Passes(job, masks, t, mi, k - 1), UnionPlace(b)), Packed(0));
      UnionByte(job, Stage(job, mi, k - 1), mi, masks[mi][k - 1], b, v.byte);
      assert Stage(job, mi, k - 1)[mi := k] == Stage(job, mi, k);
    }
  }

  lemma NoUnion(job: Job, mi: nat, b: nat)
    requires job.Ok() && mi < MorselCount(job.n) && b < Bytes(job.n)
    ensures EncodesByte(0, b, job.Union(Stage(job, mi, 0)))
  {
    forall k: nat ensures !Bit(0, k) { ZeroBit(k); }
  }

  /** A byte of rule r's output once its morsel has been through the rule. */
  lemma {:induction false} MaskFolded(job: Job, masks: Masks, t: nat, mi: nat, k: nat, r: nat, b: nat, v: Value)
    requires Given(job, masks) && mi < |masks| && r < k <= |job.rules| && b < Bytes(job.n) && b / 256 == mi
    ensures var last := Folded(job, EffectsAt(Passes(job, masks, t, mi, k), MaskPlace(r, b)), v);
            last.Packed? && EncodesByte(last.byte, b, job.matches[r])
    decreases k
  {
    hide EffectsAt, Passes, Folded, Encodes, EncodesByte, Slice;
    FoldPasses(job, masks, t, mi, k, MaskPlace(r, b), v);
    GivenMask(job, masks, mi, k - 1);
    if r == k - 1 {
      MaskByteAt(job, masks, mi, r, b);
    } else {
      MaskFolded(job, masks, t, mi, k - 1, r, b, v);
    }
  }

  lemma MaskByteAt(job: Job, masks: Masks, mi: nat, r: nat, b: nat)
    requires Given(job, masks) && mi < |masks| && r < |job.rules| && b < Bytes(job.n) && b / 256 == mi
    ensures r < |masks[mi]| && 256 * mi <= b < 256 * mi + |masks[mi][r]| && r < |job.matches|
    ensures EncodesByte(masks[mi][r][b - 256 * mi], b, job.matches[r])
  {
    GivenMask(job, masks, mi, r);
    MorselBytes(job.n, mi);
    MorselByte(job.matches[r], mi, masks[mi][r], b - 256 * mi);
  }

  // ---- The counters ------------------------------------------------------------------------------------------------------

  lemma {:induction false} FoldConcat(job: Job, a: seq<Effect>, b: seq<Effect>, v: Value)
    ensures Folded(job, a + b, v) == Folded(job, b, Folded(job, a, v))
    decreases |b|
  {
    if b == [] {
      assert a + b == a;
    } else {
      assert (a + b)[..|a + b| - 1] == a + b[..|b| - 1];
      FoldConcat(job, a, b[..|b| - 1], v);
    }
  }

  /** Rule r's matches in the morsel. */
  function MatchCount(job: Job, r: nat, mi: nat): nat {
    if r < |job.matches| && mi < MorselCount(|job.matches[r]|) then Count(Slice(job.matches[r], mi)) else 0
  }

  lemma {:induction false} PassesCount(job: Job, masks: Masks, u: nat, mi: nat, k: nat, t: nat, r: nat, x: nat)
    requires Given(job, masks) && mi < |masks| && k <= |job.rules|
    ensures Folded(job, EffectsAt(Passes(job, masks, u, mi, k), CounterPlace(t, r)), Number(x))
         == Number(x + if u == t && r < k then MatchCount(job, r, mi) else 0)
    decreases k
  {
    hide EffectsAt, Passes, Folded, Encodes, Slice, Count;
    if k == 0 {
      NothingFolded(job, masks, u, mi, CounterPlace(t, r), Number(x));
    } else {
      PassesCount(job, masks, u, mi, k - 1, t, r, x);
      FoldPasses(job, masks, u, mi, k, CounterPlace(t, r), Number(x));
      GivenMask(job, masks, mi, k - 1);
    }
  }

  function CountsOf(counts: seq<nat>, list: seq<nat>): (out: seq<nat>)
    requires forall k | 0 <= k < |list| :: list[k] < |counts|
    ensures |out| == |list|
  {
    seq(|list|, k requires 0 <= k < |list| => counts[list[k]])
  }

  /** Rule r's matches morsel by morsel. */
  function MorselCounts(job: Job, r: nat): (counts: seq<nat>)
    requires job.Ok() && r < |job.rules|
    ensures |counts| == MorselCount(job.n) && forall mi | 0 <= mi < |counts| :: counts[mi] == MatchCount(job, r, mi)
  {
    seq(MorselCount(job.n), mi requires 0 <= mi < MorselCount(job.n) => MatchCount(job, r, mi))
  }

  /** A thread's counter is the sum over its morsels; other threads leave it alone. */
  lemma {:induction false} WorkCount(job: Job, masks: Masks, u: nat, list: seq<nat>, t: nat, r: nat, x: nat)
    requires Given(job, masks) && (forall k | 0 <= k < |list| :: list[k] < |masks|) && r < |job.rules|
    ensures Folded(job, EffectsAt(Work(job, masks, u, list), CounterPlace(t, r)), Number(x))
         == Number(x + if u == t then Sum(CountsOf(MorselCounts(job, r), list)) else 0)
    decreases |list|
  {
    hide Given, Passes, Folded, EffectsAt, MatchCount, Sum;
    GivenParts(job, masks);
    NoEffects([], CounterPlace(t, r));
    SumNone([]);
    FoldNone(job, Number(x));
    if list != [] {
      var front, last := list[..|list| - 1], list[|list| - 1];
      var counts := MorselCounts(job, r);
      WorkCount(job, masks, u, front, t, r, x);
      EffectsConcat(Work(job, masks, u, front), Passes(job, masks, u, last, |job.rules|), CounterPlace(t, r));
      FoldConcat(job, EffectsAt(Work(job, masks, u, front), CounterPlace(t, r)),
                 EffectsAt(Passes(job, masks, u, last, |job.rules|), CounterPlace(t, r)), Number(x));
      PassesCount(job, masks, u, last, |job.rules|, t, r, x + if u == t then Sum(CountsOf(counts, front)) else 0);
      assert CountsOf(counts, list) == CountsOf(counts, front) + [counts[last]];
      SumPush(CountsOf(counts, front), counts[last]);
    }
  }

  lemma GivenParts(job: Job, masks: Masks)
    requires Given(job, masks)
    ensures job.Ok() && |masks| == MorselCount(job.n)
  {
  }

  lemma FoldNone(job: Job, v: Value)
    ensures Folded(job, [], v) == v
  {
  }

  /** No counter sees another thread. */
  lemma {:induction false} ForeignCounter(job: Job, masks: Masks, u: nat, list: seq<nat>, t: nat, r: nat)
    requires Given(job, masks) && (forall k | 0 <= k < |list| :: list[k] < |masks|) && u != t
    ensures EffectsAt(Work(job, masks, u, list), CounterPlace(t, r)) == []
  {
    hide Given, Passes, EffectsAt;
    NoEffects([], CounterPlace(t, r));
    if list != [] {
      var front, last := list[..|list| - 1], list[|list| - 1];
      ForeignCounter(job, masks, u, front, t, r);
      ForeignCounts(job, masks, u, last, |job.rules|, t, r);
      EffectsConcat(Work(job, masks, u, front), Passes(job, masks, u, last, |job.rules|), CounterPlace(t, r));
    }
  }

  lemma {:induction false} ForeignCounts(job: Job, masks: Masks, u: nat, mi: nat, k: nat, t: nat, r: nat)
    requires Given(job, masks) && mi < |masks| && k <= |job.rules| && u != t
    ensures EffectsAt(Passes(job, masks, u, mi, k), CounterPlace(t, r)) == []
  {
    hide Given, Pass, EffectsAt, Slice;
    NoEffects([], CounterPlace(t, r));
    if k != 0 {
      ForeignCounts(job, masks, u, mi, k - 1, t, r);
      PassAt(job, masks, u, mi, k - 1, CounterPlace(t, r));
      EffectsConcat(Passes(job, masks, u, mi, k - 1), Pass(job, masks, u, mi, k - 1), CounterPlace(t, r));
    }
  }

  /** Each morsel is worked on by one thread, once. */
  ghost predicate Assigned(lists: seq<seq<nat>>, owner: seq<nat>) {
    && (forall mi: nat | mi < |owner| :: owner[mi] < |lists|)
    && (forall t: nat | t < |lists| :: NoRepeats(lists[t]) && forall k | 0 <= k < |lists[t]| :: lists[t][k] < |owner|)
    && (forall t: nat, mi: nat | t < |lists| && mi < |owner| :: mi in lists[t] <==> owner[mi] == t)
  }

  /** The listed morsels' counts in place, the others zero. */
  function Share(counts: seq<nat>, list: seq<nat>, c: nat): (out: seq<nat>)
    requires c <= |counts|
    ensures |out| == c
  {
    seq(c, mi requires 0 <= mi < c => if mi in list then counts[mi] else 0)
  }

  lemma {:induction false} ListShare(counts: seq<nat>, list: seq<nat>)
    requires NoRepeats(list) && forall k | 0 <= k < |list| :: list[k] < |counts|
    ensures Sum(CountsOf(counts, list)) == Sum(Share(counts, list, |counts|))
  {
    hide Sum;
    if list == [] {
      SumNone(Share(counts, list, |counts|));
      SumNone([]);
    } else {
      var front, last := list[..|list| - 1], list[|list| - 1];
      assert list == front + [last];
      ListShare(counts, front);
      assert CountsOf(counts, list) == CountsOf(counts, front) + [counts[last]];
      SumPush(CountsOf(counts, front), counts[last]);
      var share := Share(counts, front, |counts|);
      assert last !in front && share[last] == 0;
      assert Share(counts, list, |counts|) == share[last := counts[last]];
      SumUpdate(share, last, counts[last]);
    }
  }

  function ShareSums(counts: seq<nat>, lists: seq<seq<nat>>, c: nat): (sums: seq<nat>)
    requires c <= |counts|
    ensures |sums| == |lists| && forall t | 0 <= t < |sums| :: sums[t] == Sum(Share(counts, lists[t], c))
  {
    seq(|lists|, t requires 0 <= t < |lists| => Sum(Share(counts, lists[t], c)))
  }

  lemma {:induction false} SharesAddUp(counts: seq<nat>, lists: seq<seq<nat>>, owner: seq<nat>, c: nat)
    requires Assigned(lists, owner) && |owner| == |counts| && c <= |counts|
    ensures Sum(ShareSums(counts, lists, c)) == Sum(counts[..c])
    decreases c
  {
    hide Sum, NoRepeats;
    if c == 0 {
      forall t | 0 <= t < |lists| ensures ShareSums(counts, lists, 0)[t] == 0 { SumNone(Share(counts, lists[t], 0)); }
      SumNone(ShareSums(counts, lists, 0));
      SumNone(counts[..0]);
    } else {
      SharesAddUp(counts, lists, owner, c - 1);
      assert counts[..c] == counts[..c - 1] + [counts[c - 1]];
      SumPush(counts[..c - 1], counts[c - 1]);
      var before, u := ShareSums(counts, lists, c - 1), owner[c - 1];
      forall t | 0 <= t < |lists|
        ensures ShareSums(counts, lists, c)[t] == before[t] + if t == u then counts[c - 1] else 0
      {
        var x := if c - 1 in lists[t] then counts[c - 1] else 0;
        assert Share(counts, lists[t], c) == Share(counts, lists[t], c - 1) + [x];
        SumPush(Share(counts, lists[t], c - 1), x);
      }
      assert ShareSums(counts, lists, c) == before[u := before[u] + counts[c - 1]];
      SumUpdate(before, u, before[u] + counts[c - 1]);
    }
  }

  // ---- Any interleaving -------------------------------------------------------------------------------------------------

  /** The trace takes the threads' writes one by one, each thread's in its own order. */
  ghost predicate Interleaves(trace: seq<Write>, programs: seq<seq<Write>>)
    decreases |trace|
  {
    if trace == [] then forall t | 0 <= t < |programs| :: programs[t] == []
    else exists t: nat :: LastFrom(trace, programs, t) && Interleaves(trace[..|trace| - 1], programs[t := programs[t][..|programs[t]| - 1]])
  }

  ghost predicate LastFrom(trace: seq<Write>, programs: seq<seq<Write>>, t: nat) {
    t < |programs| && trace != [] && programs[t] != [] && programs[t][|programs[t]| - 1] == trace[|trace| - 1]
  }

  /** A place that one thread alone writes to sees that thread's writes in their order. */
  lemma {:induction false} OwnerDecides(trace: seq<Write>, programs: seq<seq<Write>>, u: nat, p: Place)
    requires Interleaves(trace, programs) && u < |programs|
    requires forall t | 0 <= t < |programs| && t != u :: EffectsAt(programs[t], p) == []
    ensures EffectsAt(trace, p) == EffectsAt(programs[u], p)
    decreases |trace|
  {
    if trace != [] {
      var last := |trace| - 1;
      var t: nat :| LastFrom(trace, programs, t) && Interleaves(trace[..last], programs[t := programs[t][..|programs[t]| - 1]]);
      var front := programs[t][..|programs[t]| - 1];
      var rest := programs[t := front];
      forall q | 0 <= q < |rest| && q != u ensures EffectsAt(rest[q], p) == [] {
        if q == t { assert EffectsAt(programs[t], p) == []; }
      }
      OwnerDecides(trace[..last], rest, u, p);
    }
  }

  function Programs(job: Job, masks: Masks, lists: seq<seq<nat>>): (programs: seq<seq<Write>>)
    requires Given(job, masks) && forall t: nat | t < |lists| :: forall k | 0 <= k < |lists[t]| :: lists[t][k] < |masks|
    ensures |programs| == |lists|
  {
    seq(|lists|, t requires 0 <= t < |lists| => Work(job, masks, t, lists[t]))
  }

  /** Nothing is decided, united or counted yet. */
  ghost predicate Initial(job: Job, mem: Memory) {
    && (forall i: nat :: mem(RowPlace(i)) == Outcome(job.start))
    && (forall b: nat :: mem(UnionPlace(b)) == Packed(0))
    && (forall t: nat, r: nat :: mem(CounterPlace(t, r)) == Number(0))
  }

  /** A place of a morsel ends as that morsel's passes leave it. */
  lemma PlaceEnds(job: Job, masks: Masks, lists: seq<seq<nat>>, owner: seq<nat>, trace: seq<Write>, mem: Memory, mi: nat, p: Place)
    requires Given(job, masks) && |owner| == |masks| && Assigned(lists, owner) && mi < |masks| && Belongs(p, mi)
    requires Interleaves(trace, Programs(job, masks, lists))
    ensures After(job, trace, mem)(p) == Folded(job, EffectsAt(Passes(job, masks, owner[mi], mi, |job.rules|), p), mem(p))
  {
    hide Given, Passes, Work, EffectsAt, Interleaves, After, Folded, NoRepeats;
    var u := owner[mi];
    forall t: nat | t < |lists| ensures EffectsAt(Programs(job, masks, lists)[t], p)
                                    == if t == u then EffectsAt(Passes(job, masks, t, mi, |job.rules|), p) else [] {
      WorkAt(job, masks, t, lists[t], mi, p);
    }
    OwnerDecides(trace, Programs(job, masks, lists), u, p);
    AfterAt(job, trace, mem, p);
  }

  /** A thread's counter ends as the sum over its morsels. */
  lemma CounterEnds(job: Job, masks: Masks, lists: seq<seq<nat>>, owner: seq<nat>, trace: seq<Write>, mem: Memory, t: nat, r: nat)
    requires Given(job, masks) && |owner| == |masks| && Assigned(lists, owner) && t < |lists| && r < |job.rules|
    requires Interleaves(trace, Programs(job, masks, lists)) && Initial(job, mem)
    ensures job.Ok() && |masks| == MorselCount(job.n)
    ensures After(job, trace, mem)(CounterPlace(t, r)) == Number(Sum(CountsOf(MorselCounts(job, r), lists[t])))
  {
    hide Given, Work, EffectsAt, Interleaves, After, Folded, NoRepeats, Sum, MorselCount;
    GivenParts(job, masks);
    forall q | 0 <= q < |lists| && q != t ensures EffectsAt(Programs(job, masks, lists)[q], CounterPlace(t, r)) == [] {
      ForeignCounter(job, masks, q, lists[q], t, r);
    }
    OwnerDecides(trace, Programs(job, masks, lists), t, CounterPlace(t, r));
    AfterAt(job, trace, mem, CounterPlace(t, r));
    WorkCount(job, masks, t, lists[t], t, r, 0);
  }

  /** Rule r's matches as the threads' counters hold them. */
  function ThreadCounts(job: Job, end: Memory, threads: nat, r: nat): (counts: seq<nat>)
    ensures |counts| == threads
  {
    seq(threads, t requires 0 <= t < threads => if end(CounterPlace(t, r)).Number? then end(CounterPlace(t, r)).n else 0)
  }

  /** For every division of the morsels among threads and every interleaving of their single writes: each row ends as if
      the rules that match it had been applied in order, each byte of the union and of the rules' masks as the
      matches have it, and the threads' counters add up to each rule's matches. */
  lemma AnyInterleaving(job: Job, masks: Masks, lists: seq<seq<nat>>, owner: seq<nat>, trace: seq<Write>, mem: Memory)
    requires Given(job, masks) && |owner| == |masks| && Assigned(lists, owner)
    requires Interleaves(trace, Programs(job, masks, lists)) && Initial(job, mem)
    ensures job.Ok()
    ensures var end := After(job, trace, mem);
            && (forall i: nat | i < job.n :: end(RowPlace(i)) == Outcome(job.RowAt(i, |job.rules|)))
            && (forall b: nat | b < Bytes(job.n) :: end(UnionPlace(b)).Packed? && EncodesByte(end(UnionPlace(b)).byte, b, B.AnyMatch(job)))
            && (forall r: nat, b: nat | r < |job.rules| && b < Bytes(job.n) ::
                  end(MaskPlace(r, b)).Packed? && EncodesByte(end(MaskPlace(r, b)).byte, b, job.matches[r]))
            && (forall r: nat | r < |job.rules| :: Sum(ThreadCounts(job, end, |lists|, r)) == Count(job.matches[r]))
  {
    hide Given, Passes, Work, EffectsAt, Interleaves, After, Folded, Assigned, EncodesByte, Count, Sum, Initial, B.AnyMatch, Job.Union;
    GivenParts(job, masks);
    InitialSays(job, mem);
    forall i: nat | i < job.n ensures After(job, trace, mem)(RowPlace(i)) == Outcome(job.RowAt(i, |job.rules|)) {
      PlaceEnds(job, masks, lists, owner, trace, mem, i / MORSEL_ROWS, RowPlace(i));
      RowFolded(job, masks, owner[i / MORSEL_ROWS], i / MORSEL_ROWS, |job.rules|, i);
    }
    forall b: nat | b < Bytes(job.n)
      ensures After(job, trace, mem)(UnionPlace(b)).Packed? && EncodesByte(After(job, trace, mem)(UnionPlace(b)).byte, b, B.AnyMatch(job))
    {
      var mi := b / 256;
      assert mi < |masks|;
      PlaceEnds(job, masks, lists, owner, trace, mem, mi, UnionPlace(b));
      UnionFolded(job, masks, owner[mi], mi, |job.rules|, b);
      UnionIsMatch(job, mi, b, After(job, trace, mem)(UnionPlace(b)).byte);
    }
    forall r: nat, b: nat | r < |job.rules| && b < Bytes(job.n)
      ensures After(job, trace, mem)(MaskPlace(r, b)).Packed? && EncodesByte(After(job, trace, mem)(MaskPlace(r, b)).byte, b, job.matches[r])
    {
      var mi := b / 256;
      assert mi < |masks|;
      PlaceEnds(job, masks, lists, owner, trace, mem, mi, MaskPlace(r, b));
      MaskFolded(job, masks, owner[mi], mi, |job.rules|, r, b, mem(MaskPlace(r, b)));
    }
    forall r: nat | r < |job.rules| ensures Sum(ThreadCounts(job, After(job, trace, mem), |lists|, r)) == Count(job.matches[r]) {
      CountersAddUp(job, masks, lists, owner, trace, mem, r);
    }
  }

  lemma InitialSays(job: Job, mem: Memory)
    requires Initial(job, mem)
    ensures forall i: nat :: mem(RowPlace(i)) == Outcome(job.start)
    ensures forall b: nat :: mem(UnionPlace(b)) == Packed(0)
  {
  }

  /** A byte sees its own morsel's rules only. */
  lemma UnionIsMatch(job: Job, mi: nat, b: nat, byte: Byte)
    requires job.Ok() && mi < MorselCount(job.n) && b < Bytes(job.n) && b / 256 == mi
    requires EncodesByte(byte, b, job.Union(Stage(job, mi, |job.rules|)))
    ensures EncodesByte(byte, b, B.AnyMatch(job))
  {
    var u := job.Union(Stage(job, mi, |job.rules|));
    forall i: nat | i < job.n && i / 8 == b ensures u[i] == B.AnyMatch(job)[i] {
      assert i / MORSEL_ROWS == mi;
      assert job.Touched(i, |job.rules|) <==> exists r :: 0 <= r < |job.rules| && job.matches[r][i];
    }
    SameByte(byte, b, u, B.AnyMatch(job));
  }

  lemma AllTallies(rows: seq<bool>)
    ensures Sum(FirstTallies(rows, MorselCount(|rows|))) == Count(rows)
  {
    TalliesAddUp(rows, MorselCount(|rows|));
  }

  lemma CountersAddUp(job: Job, masks: Masks, lists: seq<seq<nat>>, owner: seq<nat>, trace: seq<Write>, mem: Memory, r: nat)
    requires Given(job, masks) && |owner| == |masks| && Assigned(lists, owner) && r < |job.rules|
    requires Interleaves(trace, Programs(job, masks, lists)) && Initial(job, mem)
    ensures job.Ok() && Sum(ThreadCounts(job, After(job, trace, mem), |lists|, r)) == Count(job.matches[r])
  {
    hide Given, Work, Interleaves, After, Initial, NoRepeats, Sum, Count;
    GivenParts(job, masks);
    var counts := MorselCounts(job, r);
    forall t: nat | t < |lists| ensures ThreadCounts(job, After(job, trace, mem), |lists|, r)[t] == Sum(Share(counts, lists[t], |counts|)) {
      CounterEnds(job, masks, lists, owner, trace, mem, t, r);
      ListShare(counts, lists[t]);
    }
    assert ThreadCounts(job, After(job, trace, mem), |lists|, r) == ShareSums(counts, lists, |counts|);
    SharesAddUp(counts, lists, owner, |counts|);
    assert counts[..|counts|] == counts;
    assert counts == FirstTallies(job.matches[r], |counts|);
    AllTallies(job.matches[r]);
  }
}
