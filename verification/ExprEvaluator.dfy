/** `ExprEvaluator` over byte masks: the node-mask cache, the two survivor buffers it swaps, and the
    masks it writes in place. */
module ExprEvaluator {
  import opened Bits
  import opened ByteMask
  import opened Casts
  import opened MaskKernels
  import opened EvalPlan
  import T = EvalTree

  // ---- Which nodes take masks from the arena ---------------------------------------------------------------

  type Cache = seq<array?<Byte>>

  /** Inner nodes only, and each once. */
  ghost predicate AskedOnce(plan: Plan, asked: seq<nat>) {
    && (forall k | 0 <= k < |asked| :: asked[k] < |plan.nodes| && !plan.nodes[asked[k]].Pred?)
    && (forall k, l | 0 <= k < l < |asked| :: asked[k] != asked[l])
  }

  /** Of the nodes below the bound only cached ones have asked. */
  ghost predicate CachedBelow(plan: Plan, asked: seq<nat>, masks: Cache, bound: nat) {
    && |masks| == |plan.nodes| && AskedOnce(plan, asked)
    && forall k | 0 <= k < |asked| && asked[k] < bound :: masks[asked[k]] != null
  }

  /** What has asked since then is cached. */
  ghost predicate CachedSince(plan: Plan, before: seq<nat>, asked: seq<nat>, masks: Cache) {
    && |masks| == |plan.nodes| && AskedOnce(plan, asked) && before <= asked
    && forall k | |before| <= k < |asked| :: masks[asked[k]] != null
  }

  ghost predicate Kept(before: Cache, after: Cache) {
    |before| == |after| && forall n | 0 <= n < |before| && before[n] != null :: after[n] != null
  }

  /** A node that is not cached has not asked yet. */
  lemma AskNow(plan: Plan, asked: seq<nat>, masks: Cache, node: nat)
    requires CachedBelow(plan, asked, masks, node + 1)
    requires node < |plan.nodes| && !plan.nodes[node].Pred? && masks[node] == null
    ensures CachedBelow(plan, asked + [node], masks, node)
    ensures CachedBelow(plan, asked, masks, node) && CachedSince(plan, asked, asked, masks)
  {
  }

  lemma AskedStart(plan: Plan, asked: seq<nat>, masks: Cache, bound: nat)
    requires CachedBelow(plan, asked, masks, bound)
    ensures forall b: nat | b <= bound :: CachedBelow(plan, asked, masks, b)
    ensures CachedSince(plan, asked, asked, masks)
  {
  }

  /** After another node was evaluated. */
  lemma AskedNext(plan: Plan, before: seq<nat>, asked: seq<nat>, masks: Cache, later: seq<nat>, laterMasks: Cache, bound: nat)
    requires CachedBelow(plan, asked, masks, bound) && CachedSince(plan, before, asked, masks)
    requires CachedSince(plan, asked, later, laterMasks) && Kept(masks, laterMasks)
    ensures CachedBelow(plan, later, laterMasks, bound) && CachedSince(plan, before, later, laterMasks)
  {
    forall k | 0 <= k < |later| && later[k] < bound ensures laterMasks[later[k]] != null {
      if k < |asked| { assert later[k] == asked[k]; }
    }
    forall k | |before| <= k < |later| ensures laterMasks[later[k]] != null {
      if k < |asked| { assert later[k] == asked[k]; }
    }
  }

  /** Caching one more mask takes nothing away. */
  lemma AskedSaved(plan: Plan, before: seq<nat>, asked: seq<nat>, masks: Cache, node: nat, mask: array<Byte>)
    requires CachedSince(plan, before, asked, masks) && node < |masks|
    ensures CachedSince(plan, before, asked, masks[node := mask])
    ensures before != [] && before[|before| - 1] == node ==> CachedSince(plan, before[..|before| - 1], asked, masks[node := mask])
  {
    if before != [] && before[|before| - 1] == node {
      var front := before[..|before| - 1];
      forall k | |front| <= k < |asked| ensures masks[node := mask][asked[k]] != null {
        if k < |before| { assert asked[k] == before[k]; }
      }
    }
  }

  class Evaluator {
    const plan: Plan
    const adaptive: bool
    const options: T.Options
    const m: nat
    /** The predicate masks of the morsel, and the rows they stand for. */
    const predicates: seq<array<Byte>>
    ghost const preds: map<nat, seq<bool>>

    /** `node_masks`, with the rows each cached mask stands for. */
    var nodeMasks: seq<array?<Byte>>
    ghost var memo: map<nat, seq<bool>>
    var survivors: seq<nat>
    var nextSurvivors: seq<nat>
    /** The nodes that took a mask from the arena, in order. */
    var asked: seq<nat>

    ghost function TheJob(): Job {
      Job(plan, adaptive, T.Env(preds, m, options))
    }

    ghost function TheStore(): Store
      reads this
    {
      Store(memo, survivors)
    }

    ghost predicate Valid()
      reads this, predicates, nodeMasks
    {
      && WellFormed(plan, adaptive)
      && |nodeMasks| == |plan.nodes|
      && (forall n: nat | n < |plan.nodes| && plan.nodes[n].Pred? :: plan.nodes[n].p < |predicates|)
      && (forall p: nat :: p in preds <==> p < |predicates|)
      && (forall p: nat | p < |predicates| :: |preds[p]| == m && Encodes(predicates[p][..], preds[p]))
      && (forall n: nat :: n in memo <==> n < |nodeMasks| && nodeMasks[n] != null)
      && (forall n: nat | n < |nodeMasks| && nodeMasks[n] != null ::
            |memo[n]| == m && Encodes(nodeMasks[n][..], memo[n]))
    }

    /** Not a mask that anything else can reach. */
    ghost predicate Private(out: array<Byte>)
      reads this
    {
      out !in nodeMasks && out !in predicates && out.Length == Bytes(m)
    }

    ghost predicate Bounded()
      reads this
    {
      forall k | 0 <= k < |survivors| :: survivors[k] < m
    }

    ghost predicate AskedBelow(bound: nat)
      reads this`asked, this`nodeMasks
    {
      CachedBelow(plan, asked, nodeMasks, bound)
    }

    ghost predicate AskedSince(before: seq<nat>)
      reads this`asked, this`nodeMasks
    {
      CachedSince(plan, before, asked, nodeMasks)
    }

    constructor (plan: Plan, adaptive: bool, options: T.Options, m: nat, predicates: seq<array<Byte>>,
                 ghost preds: map<nat, seq<bool>>, leftover: seq<nat>)
      requires WellFormed(plan, adaptive)
      requires forall n: nat | n < |plan.nodes| && plan.nodes[n].Pred? :: plan.nodes[n].p < |predicates|
      requires forall p: nat :: p in preds <==> p < |predicates|
      requires forall p: nat | p < |predicates| :: |preds[p]| == m && Encodes(predicates[p][..], preds[p])
      ensures Valid() && memo == map[] && survivors == leftover && asked == []
      ensures this.plan == plan && TheJob() == Job(plan, adaptive, T.Env(preds, m, options))
      ensures this.predicates == predicates && this.options == options && this.m == m
    {
      this.plan, this.adaptive, this.options, this.m := plan, adaptive, options, m;
      this.predicates, this.preds := predicates, preds;
      nodeMasks := seq(|plan.nodes|, _ => null);
      memo := map[];
      survivors, nextSurvivors, asked := leftover, [], [];
    }

    /** `eval`.  The mask it returns and the state it leaves are those of `EvalPlan.Run`. */
    method Eval(node: nat) returns (mask: array<Byte>)
      requires Valid() && node < |plan.nodes| && AskedBelow(node + 1)
      modifies this
      ensures Valid() && AskedSince(old(asked))
      ensures Result(mask[..], node, old(TheStore()))
      ensures nodeMasks[node] == mask
      ensures forall n: nat | n < |nodeMasks| ::
                nodeMasks[n] == old(nodeMasks[n]) || nodeMasks[n] in predicates || fresh(nodeMasks[n])
      ensures old(Bounded()) ==> Bounded()
      decreases node, 1
    {
      hide AskedOnce, CachedBelow, CachedSince, Encodes, T.FromIndices, T.Filter, NoRows;
      AskedStart(plan, asked, nodeMasks, node + 1);
      var cached := nodeMasks[node];
      if cached != null {
        return cached;
      }
      if plan.nodes[node].Pred? {
        mask := predicates[plan.nodes[node].p];
        AskedSaved(plan, asked, asked, nodeMasks, node, mask);
        Save(node, mask, preds[plan.nodes[node].p]);
        return;
      }
      mask := EvalInner(node);
    }

    /** The node takes a mask from the arena and fills it. */
    method EvalInner(node: nat) returns (out: array<Byte>)
      requires Valid() && node < |plan.nodes| && AskedBelow(node + 1)
      requires nodeMasks[node] == null && !plan.nodes[node].Pred?
      modifies this
      ensures Valid() && AskedSince(old(asked))
      ensures Result(out[..], node, old(TheStore()))
      ensures nodeMasks[node] == out
      ensures forall n: nat | n < |nodeMasks| ::
                nodeMasks[n] == old(nodeMasks[n]) || nodeMasks[n] in predicates || fresh(nodeMasks[n])
      ensures old(Bounded()) ==> Bounded()
      decreases node, 0, 3
    {
      hide AskedOnce, CachedBelow, CachedSince, Encodes, T.FromIndices, T.Filter, RunOr, RunAnd, RunSparse;
      out := new Byte[Bytes(m)](_ => 0);
      ghost var before := asked;
      AskNow(plan, asked, nodeMasks, node);
      asked := asked + [node];
      AskedStart(plan, asked, nodeMasks, node);
      ZeroMask(out[..], m);
      if plan.nodes[node].Not? {
        EvalNot(node, out);
      } else if Chosen(plan.nodes[node], adaptive) == [] {
        AskedSaved(plan, asked, asked, nodeMasks, node, out);
        Save(node, out, NoRows(m));
      } else if plan.nodes[node].Or? {
        EvalOr(node, out);
      } else {
        EvalAnd(node, out);
      }
      assert (before + [node])[..|before|] == before && nodeMasks[node := out] == nodeMasks;
      AskedSaved(plan, before + [node], asked, nodeMasks, node, out);
    }

    /** The mask and the state are what `EvalPlan.Run` gives. */
    ghost predicate Result(mask: seq<Byte>, node: nat, before: Store)
      requires WellFormed(plan, adaptive) && node < |plan.nodes| && StoreOk(TheJob(), before)
      reads this
    {
      var r := Run(TheJob(), node, before);
      Encodes(mask, r.mask) && TheStore() == r.st
    }

    ghost predicate Uncached(node: nat)
      reads this, predicates, nodeMasks
    {
      && Valid() && node < |plan.nodes| && nodeMasks[node] == null && Chosen(plan.nodes[node], adaptive) != []
      && AskedBelow(node)
    }

    method EvalNot(node: nat, out: array<Byte>)
      requires Uncached(node) && plan.nodes[node].Not?
      requires Private(out)
      modifies this, out
      ensures Valid() && AskedSince(old(asked))
      ensures Result(out[..], node, old(TheStore()))
      ensures nodeMasks[node] == out
      ensures forall n: nat | n < |nodeMasks| && n != node ::
                nodeMasks[n] == old(nodeMasks[n]) || nodeMasks[n] in predicates || fresh(nodeMasks[n])
      ensures old(Bounded()) ==> Bounded()
      decreases node, 0, 1
    {
      hide AskedOnce, CachedBelow, CachedSince;
      AskedStart(plan, asked, nodeMasks, node);
      var child := plan.nodes[node].child;
      assert Chosen(plan.nodes[node], adaptive)[0] == child;
      ghost var rows := Run(TheJob(), child, TheStore()).mask;
      var input := Eval(child);
      BitwiseNot(input, out, m);
      NotMaskRows(input[..], rows);
      AskedSaved(plan, old(asked), asked, nodeMasks, node, out);
      Save(node, out, NotRows(rows));
    }

    method EvalOr(node: nat, out: array<Byte>)
      requires Uncached(node) && plan.nodes[node].Or?
      requires Private(out)
      modifies this, out
      ensures Valid() && AskedSince(old(asked))
      ensures Result(out[..], node, old(TheStore()))
      ensures nodeMasks[node] == out
      ensures forall n: nat | n < |nodeMasks| && n != node ::
                nodeMasks[n] == old(nodeMasks[n]) || nodeMasks[n] in predicates || fresh(nodeMasks[n])
      ensures old(Bounded()) ==> Bounded()
      decreases node, 0, 1
    {
      hide AskedOnce, CachedBelow, CachedSince, Encodes, Rows, Clean;
      AskedStart(plan, asked, nodeMasks, node);
      var children := Chosen(plan.nodes[node], adaptive);
      ghost var r := Run(TheJob(), children[0], TheStore());
      ghost var done := RunOr(TheJob(), node, children[1..], r.mask, r.st);
      var first := Eval(children[0]);
      AskedNext(plan, old(asked), old(asked), old(nodeMasks), asked, nodeMasks, node);
      EncodesLength(first[..], r.mask);
      Copy(out, first);
      ghost var a, masks := asked, nodeMasks;
      OrChildren(node, children[1..], out, r.mask);
      AskedNext(plan, old(asked), a, masks, asked, nodeMasks, node);
      AskedSaved(plan, old(asked), asked, nodeMasks, node, out);
      Save(node, out, done.mask);
    }

    method EvalAnd(node: nat, out: array<Byte>)
      requires Uncached(node) && plan.nodes[node].And?
      requires Private(out) && Encodes(out[..], NoRows(m))
      modifies this, out
      ensures Valid() && AskedSince(old(asked))
      ensures Result(out[..], node, old(TheStore()))
      ensures nodeMasks[node] == out
      ensures forall n: nat | n < |nodeMasks| && n != node ::
                nodeMasks[n] == old(nodeMasks[n]) || nodeMasks[n] in predicates || fresh(nodeMasks[n])
      ensures old(Bounded()) ==> Bounded()
      decreases node, 0, 2
    {
      hide AskedOnce, CachedBelow, CachedSince, Encodes, Rows, Clean, NoRows;
      AskedStart(plan, asked, nodeMasks, node);
      var children := Chosen(plan.nodes[node], adaptive);
      ghost var r := Run(TheJob(), children[0], TheStore());
      var first := Eval(children[0]);
      AskedNext(plan, old(asked), old(asked), old(nodeMasks), asked, nodeMasks, node);
      ghost var a, masks := asked, nodeMasks;
      var sparse, firstCount := GoesSparse(first, |children|, r.mask);
      if !sparse {
        DenseAnd(node, children[1..], first, out, r);
        AskedNext(plan, old(asked), a, masks, asked, nodeMasks, node);
      } else if firstCount == 0 {
        AskedSaved(plan, old(asked), asked, nodeMasks, node, out);
        Save(node, out, NoRows(m));
      } else {
        SparseAnd(node, children[1..], first, out, r);
        AskedNext(plan, old(asked), a, masks, asked, nodeMasks, node);
      }
    }

    method CountRows(first: array<Byte>, ghost rows: seq<bool>) returns (count: nat)
      requires Encodes(first[..], rows)
      ensures count == Count(rows)
    {
      count := CountSetBits(first);
      assert Clean(first[..], |rows|);
    }

    /** The test for the survivor path: few enough rows left after the first child. */
    method GoesSparse(first: array<Byte>, width: nat, ghost rows: seq<bool>) returns (sparse: bool, firstCount: nat)
      requires |rows| == m && Encodes(first[..], rows)
      ensures sparse <==> TheJob().env.Sparse(rows, width)
      ensures sparse ==> firstCount == Count(rows)
    {
      firstCount := m;
      if options.selection { firstCount := CountRows(first, rows); }
      var threshold := Truncate(options.fraction * m as real);
      assert TheJob().env.Threshold() == threshold;
      sparse := options.selection && width > 1 && firstCount <= threshold;
    }

    /** The survivor path: `out` stays zero until the surviving rows are known. */
    method SparseAnd(node: nat, rest: seq<nat>, first: array<Byte>, out: array<Byte>, ghost r: EvalPlan.Result)
      requires Valid() && node < |plan.nodes| && Below(rest, node) && TheStore() == r.st && AskedBelow(node)
      requires |r.mask| == m && Encodes(first[..], r.mask)
      requires Private(out) && Encodes(out[..], NoRows(m))
      modifies this, out
      ensures Valid() && AskedSince(old(asked))
      ensures var s := RunSparse(TheJob(), node, rest, r.st.(surv := Indices(r.mask)));
              var mask := T.FromIndices(s.surv, m);
              Encodes(out[..], mask) && TheStore() == Remember(node, mask, s).st
      ensures nodeMasks[node] == out
      ensures forall n: nat | n < |nodeMasks| && n != node ::
                nodeMasks[n] == old(nodeMasks[n]) || nodeMasks[n] in predicates || fresh(nodeMasks[n])
      ensures Bounded()
      decreases node, 0, 1
    {
      hide AskedOnce, CachedBelow, CachedSince;
      survivors := CollectSetBits(first, m);
      assert Rows(first[..], m) == r.mask;
      forall k | 0 <= k < |survivors| ensures survivors[k] < m {
        IndicesExact(r.mask);
        assert survivors[k] in Indices(r.mask);
      }
      assert TheStore() == r.st.(surv := Indices(r.mask));
      SparseChildren(node, rest);
      SetSurvivors(out);
      AskedSaved(plan, old(asked), asked, nodeMasks, node, out);
      Save(node, out, T.FromIndices(survivors, m));
    }

    method DenseAnd(node: nat, rest: seq<nat>, first: array<Byte>, out: array<Byte>, ghost r: EvalPlan.Result)
      requires Valid() && node < |plan.nodes| && Below(rest, node) && TheStore() == r.st && AskedBelow(node)
      requires |r.mask| == m && Encodes(first[..], r.mask) && first != out
      requires Private(out)
      modifies this, out
      ensures Valid() && AskedSince(old(asked))
      ensures var d := RunAnd(TheJob(), node, rest, r.mask, r.st);
              Encodes(out[..], d.mask) && TheStore() == Remember(node, d.mask, d.st).st
      ensures nodeMasks[node] == out
      ensures forall n: nat | n < |nodeMasks| && n != node ::
                nodeMasks[n] == old(nodeMasks[n]) || nodeMasks[n] in predicates || fresh(nodeMasks[n])
      ensures old(Bounded()) ==> Bounded()
      decreases node, 0, 1
    {
      hide AskedOnce, CachedBelow, CachedSince;
      ghost var done := RunAnd(TheJob(), node, rest, r.mask, r.st);
      Copy(out, first);
      AndChildren(node, rest, out, r.mask);
      AskedSaved(plan, old(asked), asked, nodeMasks, node, out);
      Save(node, out, done.mask);
    }

    /** `cached = mask`. */
    method Save(node: nat, mask: array<Byte>, ghost rows: seq<bool>)
      requires Valid() && node < |nodeMasks| && |rows| == m && Encodes(mask[..], rows)
      modifies `nodeMasks, `memo
      ensures Valid() && nodeMasks == old(nodeMasks)[node := mask] && memo == old(memo)[node := rows]
    {
      nodeMasks := nodeMasks[node := mask];
      memo := memo[node := rows];
    }

    /** `memcpy(out, src, mb)`. */
    method Copy(out: array<Byte>, src: array<Byte>)
      requires out != src && out.Length == src.Length
      modifies out
      ensures out[..] == src[..]
    {
      forall k | 0 <= k < out.Length {
        out[k] := src[k];
      }
    }

    /** The loop of an OR over its remaining children. */
    method OrChildren(bound: nat, cs: seq<nat>, out: array<Byte>, ghost acc: seq<bool>)
      requires Valid() && bound <= |plan.nodes| && Below(cs, bound) && AskedBelow(bound)
      requires Private(out) && |acc| == m && Encodes(out[..], acc)
      modifies this, out
      ensures Valid() && Private(out) && AskedSince(old(asked))
      ensures var r := RunOr(TheJob(), bound, cs, acc, old(TheStore()));
              Encodes(out[..], r.mask) && TheStore() == r.st
      ensures forall n: nat | n < |nodeMasks| ::
                nodeMasks[n] == old(nodeMasks[n]) || nodeMasks[n] in predicates || fresh(nodeMasks[n])
      ensures old(Bounded()) ==> Bounded()
      decreases bound, 0, 0
    {
      hide AskedOnce, CachedBelow, CachedSince;
      AskedStart(plan, asked, nodeMasks, bound);
      ghost var rows := acc;
      ghost var goal := RunOr(TheJob(), bound, cs, acc, TheStore());
      var i := 0;
      while i < |cs|
        invariant 0 <= i <= |cs|
        invariant Valid() && Private(out) && |rows| == m && Encodes(out[..], rows)
        invariant AskedBelow(bound) && AskedSince(old(asked))
        invariant Below(cs[i..], bound) && RunOr(TheJob(), bound, cs[i..], rows, TheStore()) == goal
        invariant forall n: nat | n < |nodeMasks| ::
                    nodeMasks[n] == old(nodeMasks[n]) || nodeMasks[n] in predicates || fresh(nodeMasks[n])
        invariant old(Bounded()) ==> Bounded()
      {
        ghost var r := Run(TheJob(), cs[i], TheStore());
        assert cs[i..][0] == cs[i] && cs[i..][1..] == cs[i + 1..];
        AskedStart(plan, asked, nodeMasks, bound);
        ghost var a, masks := asked, nodeMasks;
        var child := Eval(cs[i]);
        AskedNext(plan, old(asked), a, masks, asked, nodeMasks, bound);
        OrMaskRows(out[..], child[..], rows, r.mask);
        OrInto(out, child);
        rows := OrRows(rows, r.mask);
        i := i + 1;
      }
    }

    /** The dense loop of an AND over its remaining children. */
    method AndChildren(bound: nat, cs: seq<nat>, out: array<Byte>, ghost acc: seq<bool>)
      requires Valid() && bound <= |plan.nodes| && Below(cs, bound) && AskedBelow(bound)
      requires Private(out) && |acc| == m && Encodes(out[..], acc)
      modifies this, out
      ensures Valid() && Private(out) && AskedSince(old(asked))
      ensures var r := RunAnd(TheJob(), bound, cs, acc, old(TheStore()));
              Encodes(out[..], r.mask) && TheStore() == r.st
      ensures forall n: nat | n < |nodeMasks| ::
                nodeMasks[n] == old(nodeMasks[n]) || nodeMasks[n] in predicates || fresh(nodeMasks[n])
      ensures old(Bounded()) ==> Bounded()
      decreases bound, 0, 0
    {
      hide AskedOnce, CachedBelow, CachedSince;
      AskedStart(plan, asked, nodeMasks, bound);
      ghost var rows := acc;
      ghost var goal := RunAnd(TheJob(), bound, cs, acc, TheStore());
      var i := 0;
      while i < |cs|
        invariant 0 <= i <= |cs|
        invariant Valid() && Private(out) && |rows| == m && Encodes(out[..], rows)
        invariant AskedBelow(bound) && AskedSince(old(asked))
        invariant Below(cs[i..], bound) && RunAnd(TheJob(), bound, cs[i..], rows, TheStore()) == goal
        invariant forall n: nat | n < |nodeMasks| ::
                    nodeMasks[n] == old(nodeMasks[n]) || nodeMasks[n] in predicates || fresh(nodeMasks[n])
        invariant old(Bounded()) ==> Bounded()
      {
        ghost var r := Run(TheJob(), cs[i], TheStore());
        assert cs[i..][0] == cs[i] && cs[i..][1..] == cs[i + 1..];
        AskedStart(plan, asked, nodeMasks, bound);
        ghost var a, masks := asked, nodeMasks;
        var child := Eval(cs[i]);
        AskedNext(plan, old(asked), a, masks, asked, nodeMasks, bound);
        AndMaskRows(out[..], child[..], rows, r.mask);
        AndInto(out, child);
        rows := AndRows(rows, r.mask);
        i := i + 1;
      }
    }

    /** The survivor loop: evaluate the next child, which may itself fill `survivors`, then filter. */
    method SparseChildren(bound: nat, cs: seq<nat>)
      requires Valid() && bound <= |plan.nodes| && Below(cs, bound) && Bounded() && AskedBelow(bound)
      modifies this
      ensures Valid() && Bounded() && AskedSince(old(asked))
      ensures TheStore() == RunSparse(TheJob(), bound, cs, old(TheStore()))
      ensures forall n: nat | n < |nodeMasks| ::
                nodeMasks[n] == old(nodeMasks[n]) || nodeMasks[n] in predicates || fresh(nodeMasks[n])
      decreases bound, 0, 0
    {
      hide AskedOnce, CachedBelow, CachedSince, Encodes, T.Filter, Rows, Clean, Run, RunOr, RunAnd;
      AskedStart(plan, asked, nodeMasks, bound);
      ghost var goal := RunSparse(TheJob(), bound, cs, TheStore());
      var i := 0;
      while i < |cs| && survivors != []
        invariant 0 <= i <= |cs|
        invariant Valid() && Bounded()
        invariant AskedBelow(bound) && AskedSince(old(asked))
        invariant Below(cs[i..], bound) && RunSparse(TheJob(), bound, cs[i..], TheStore()) == goal
        invariant forall n: nat | n < |nodeMasks| ::
                    nodeMasks[n] == old(nodeMasks[n]) || nodeMasks[n] in predicates || fresh(nodeMasks[n])
        decreases |cs| - i
      {
        ghost var r := Run(TheJob(), cs[i], TheStore());
        assert cs[i..][0] == cs[i] && cs[i..][1..] == cs[i + 1..];
        AskedStart(plan, asked, nodeMasks, bound);
        ghost var a, masks := asked, nodeMasks;
        var child := Eval(cs[i]);
        AskedNext(plan, old(asked), a, masks, asked, nodeMasks, bound);
        KeepSet(child, r.mask);
        i := i + 1;
      }
    }

    /** Fill `next_survivors` with the survivors whose bit is set, then swap the buffers. */
    method KeepSet(mask: array<Byte>, ghost rows: seq<bool>)
      requires |rows| == m && Encodes(mask[..], rows) && Bounded()
      modifies `survivors, `nextSurvivors
      ensures survivors == T.Filter(old(survivors), rows) && Bounded()
    {
      nextSurvivors := [];
      for k := 0 to |survivors|
        invariant survivors == old(survivors) && Bounded()
        invariant nextSurvivors == T.Filter(survivors[..k], rows)
        invariant forall j | 0 <= j < |nextSurvivors| :: nextSurvivors[j] < m
      {
        var idx := survivors[k];
        assert survivors[..k + 1][..k] == survivors[..k];
        assert Rows(mask[..], m)[idx] == At(mask[..], idx);
        if Bit(mask[idx / 8], idx % 8) {
          nextSurvivors := nextSurvivors + [idx];
        }
      }
      assert survivors[..|survivors|] == survivors;
      survivors, nextSurvivors := nextSurvivors, survivors;
    }

    /** `set_bit(out, idx)` for every survivor. */
    method SetSurvivors(out: array<Byte>)
      requires Bounded() && Encodes(out[..], NoRows(m))
      modifies out
      ensures Encodes(out[..], T.FromIndices(survivors, m))
    {
      ghost var rows := NoRows(m);
      for k := 0 to |survivors|
        invariant |rows| == m && Encodes(out[..], rows)
        invariant forall i | 0 <= i < m :: rows[i] <==> i in survivors[..k]
      {
        SetMaskRows(out[..], survivors[k], rows);
        SetBit(out, survivors[k]);
        rows := rows[survivors[k] := true];
      }
      assert survivors[..|survivors|] == survivors;
      assert rows == T.FromIndices(survivors, m);
    }
  }

  lemma EncodesLength(mask: seq<Byte>, rows: seq<bool>)
    requires Encodes(mask, rows)
    ensures |mask| == Bytes(|rows|)
  {
  }

  lemma ZeroMask(mask: seq<Byte>, n: nat)
    requires |mask| == Bytes(n) && forall k | 0 <= k < |mask| :: mask[k] == 0
    ensures Encodes(mask, NoRows(n))
  {
    forall k: nat ensures !Bit(0, k) { ZeroBit(k); }
    EncodesByBytes(mask, NoRows(n));
  }
}
