/** The byte mask of a compiled rule, from the memo and the survivor buffers as they are mutated. */
module RuleRun {
  import opened Bits
  import opened ByteMask
  import opened MaskKernels
  import opened RuleCompiler
  import opened GlobalPlan
  import opened RulePipeline
  import opened ExprEvaluator
  import opened Arena
  import E = EvalPlan
  import T = EvalTree

  /** Digit i of the mask that `eval` returns for the rule's root is the condition's meaning on row i of the
      morsel, and the padding is zero: for every rule without a stuck negation, every order of children,
      every selection-vector setting that the plan's shape makes harmless, and whatever an earlier rule
      left in the survivor buffer. */
  method EvaluateRule(e: Evaluator, ghost s: Setup, ghost c: Cond) returns (mask: array<Byte>)
    requires e.Valid() && e.memo == map[] && e.asked == [] && s.Ok()
    requires e.TheJob() == E.Job(s.plan, s.adaptive, s.Env(e.options))
    requires s.program == Program(Emit(c, 0), |Emit(c, 0)| - 1) && NoStuckNegation(c)
    requires T.Safe(E.Decode(s.plan, s.adaptive, s.plan.root)) || !e.options.selection
    modifies e
    ensures e.Valid() && (fresh(mask) || mask in e.predicates) && AskedOnce(e.plan, e.asked)
    ensures |mask[..]| == Bytes(|s.rows|)
    ensures forall i: nat | i < 8 * |mask[..]| :: At(mask[..], i) == (i < |s.rows| && Meaning(s.w, c, s.rows[i]))
  {
    hide *;
    RootInside(e, s);
    ghost var before := e.TheStore();
    ClearedStore(e);
    NothingCached(e);
    NothingAsked(e, e.plan.root + 1);
    mask := e.Eval(e.plan.root);
    CacheSize(e);
    assert e.nodeMasks[e.plan.root] == mask && old(e.nodeMasks)[e.plan.root] == null;
    RuleMaskIsMeaning(s, e.options, c, before.surv);
    MaskSays(e, mask[..], s, c, before);
    AskedAtMostOnce(e);
  }

  lemma RootInside(e: Evaluator, s: Setup)
    requires s.Ok() && e.TheJob() == E.Job(s.plan, s.adaptive, s.Env(e.options))
    ensures e.plan == s.plan && e.adaptive == s.adaptive && e.plan.root < |e.plan.nodes| && E.WellFormed(s.plan, s.adaptive)
  {
  }

  lemma ClearedStore(e: Evaluator)
    requires e.memo == map[]
    ensures e.TheStore() == E.Store(map[], e.TheStore().surv) && E.StoreOk(e.TheJob(), e.TheStore())
  {
  }

  lemma NothingCached(e: Evaluator)
    requires e.Valid() && e.memo == map[]
    ensures |e.nodeMasks| == |e.plan.nodes| && forall n: nat | n < |e.nodeMasks| :: e.nodeMasks[n] == null
  {
  }

  lemma CacheSize(e: Evaluator)
    requires e.Valid()
    ensures |e.nodeMasks| == |e.plan.nodes|
  {
  }

  lemma NothingAsked(e: Evaluator, bound: nat)
    requires e.Valid() && e.asked == []
    ensures e.AskedBelow(bound)
  {
  }

  lemma AskedAtMostOnce(e: Evaluator)
    requires e.AskedSince([])
    ensures AskedOnce(e.plan, e.asked)
  {
  }

  lemma MaskSays(e: Evaluator, mask: seq<Byte>, s: Setup, c: Cond, before: E.Store)
    requires e.TheJob() == E.Job(s.plan, s.adaptive, s.Env(e.options)) && e.plan.root == s.plan.root < |e.plan.nodes|
    requires E.WellFormed(e.plan, e.adaptive) && before == E.Store(map[], before.surv)
    requires E.StoreOk(e.TheJob(), before) && e.Result(mask, e.plan.root, before)
    requires var rows := E.Run(E.Job(s.plan, s.adaptive, s.Env(e.options)), s.plan.root, E.Store(map[], before.surv)).mask;
             |rows| == |s.rows| && forall i | 0 <= i < |s.rows| :: rows[i] == Meaning(s.w, c, s.rows[i])
    ensures |mask| == Bytes(|s.rows|)
    ensures forall i: nat | i < 8 * |mask| :: At(mask, i) == (i < |s.rows| && Meaning(s.w, c, s.rows[i]))
  {
    hide E.Run, Meaning, E.WellFormed;
    var rows := E.Run(E.Job(s.plan, s.adaptive, s.Env(e.options)), s.plan.root, E.Store(map[], before.surv)).mask;
    assert Encodes(mask, rows);
    forall i: nat | i < 8 * |mask| ensures At(mask, i) == (i < |rows| && rows[i]) {
      if i < |rows| { assert Rows(mask, |rows|)[i] == At(mask, i); }
    }
  }

  // ---- The arena of a rule -----------------------------------------------------------------------------------------

  /** Which nodes of a plan are predicates. */
  function Leaves(plan: E.Plan): (leaf: seq<bool>)
    ensures |leaf| == |plan.nodes| && forall n | 0 <= n < |leaf| :: leaf[n] == plan.nodes[n].Pred?
  {
    seq(|plan.nodes|, n requires 0 <= n < |plan.nodes| => plan.nodes[n].Pred?)
  }

  /** Evaluating a rule with as many inner nodes as the arena has stretches of 256 bytes: every mask that the
      evaluation asks for is granted, on a stretch of its own. */
  method EvaluateRuleInArena(e: Evaluator, arena: BatchArena, ghost s: Setup, ghost c: Cond)
    returns (mask: array<Byte>, starts: seq<nat>)
    requires e.Valid() && e.memo == map[] && e.asked == [] && s.Ok()
    requires e.TheJob() == E.Job(s.plan, s.adaptive, s.Env(e.options))
    requires s.program == Program(Emit(c, 0), |Emit(c, 0)| - 1) && NoStuckNegation(c)
    requires T.Safe(E.Decode(s.plan, s.adaptive, s.plan.root)) || !e.options.selection
    requires arena.Valid() && e.m <= 2048 && MASK_BYTES * |Inner(Leaves(e.plan))| <= arena.block.Length
    requires arena.block !in e.predicates
    modifies e, arena, arena.block
    ensures |mask[..]| == Bytes(|s.rows|)
    ensures forall i: nat | i < 8 * |mask[..]| :: At(mask[..], i) == (i < |s.rows| && Meaning(s.w, c, s.rows[i]))
    ensures arena.Valid() && |starts| == |e.asked| == |arena.regions|
    ensures forall k | 0 <= k < |starts| :: arena.regions[k] == Region(starts[k], Bytes(e.m))
  {
    hide *;
    mask := EvaluateRule(e, s, c);
    AskedInner(e.plan, e.asked);
    starts := RuleMasks(arena, e.m, Leaves(e.plan), e.asked);
  }

  lemma AskedInner(plan: E.Plan, asked: seq<nat>)
    requires AskedOnce(plan, asked)
    ensures forall i, j | 0 <= i < j < |asked| :: asked[i] != asked[j]
    ensures forall i | 0 <= i < |asked| :: asked[i] < |Leaves(plan)| && !Leaves(plan)[asked[i]]
  {
  }
}
