/** A whole set of rules: every one compiled, all of them planned over one pool, each plan exact. */
module RuleSet {
  import opened Predicates
  import opened RuleCompiler
  import opened GlobalPlan
  import opened RulePipeline
  import opened Segments
  import PredicateKey
  import E = EvalPlan
  import T = EvalTree

  // ---- What compiling guarantees ------------------------------------------------------------------------------

  /** Operation i writes register base + i and reads earlier ones. */
  ghost predicate NumberedFrom(ops: seq<Op>, base: nat) {
    forall i: nat | i < |ops| :: ops[i].output == base + i && E.Below(Inputs(ops[i]), base + i)
  }

  lemma {:induction false} EmitNumbered(c: Cond, base: nat)
    ensures NumberedFrom(Emit(c, base), base)
    decreases c, 1
  {
    match c
    case Test(_) =>
    case Derived(_) =>
    case All(cs) => EmitAllNumbered(cs, base);
    case Any(cs) => EmitAllNumbered(cs, base);
    case Neg(d) => EmitNumbered(d, base);
  }

  lemma {:induction false} EmitAllNumbered(cs: seq<Cond>, base: nat)
    ensures NumberedFrom(EmitAll(cs, base), base)
    ensures E.Below(Roots(cs, base), base + |EmitAll(cs, base)|)
    decreases cs, 0
  {
    if cs != [] {
      EmitAllStep(cs, base);
      EmitNumbered(cs[0], base);
      EmitAllNumbered(cs[1..], base + |Emit(cs[0], base)|);
    }
  }

  /** No leaf of the rule lists a value that holds the separator. */
  predicate CleanRule(c: Cond) {
    match c
    case Test(p) => PredicateKey.Clean(p)
    case Derived(p) => PredicateKey.Clean(p)
    case All(cs) => forall k | 0 <= k < |cs| :: CleanRule(cs[k])
    case Any(cs) => forall k | 0 <= k < |cs| :: CleanRule(cs[k])
    case Neg(d) => CleanRule(d)
  }

  ghost predicate CleanOps(ops: seq<Op>) {
    forall i | 0 <= i < |ops| && ops[i].PredOp? :: PredicateKey.Clean(ops[i].p)
  }

  lemma {:induction false} EmitClean(c: Cond, base: nat)
    requires CleanRule(c)
    ensures CleanOps(Emit(c, base))
    decreases c, 1
  {
    match c
    case Test(_) =>
    case Derived(_) =>
    case All(cs) => EmitAllClean(cs, base);
    case Any(cs) => EmitAllClean(cs, base);
    case Neg(d) => EmitClean(d, base);
  }

  lemma {:induction false} EmitAllClean(cs: seq<Cond>, base: nat)
    requires forall k | 0 <= k < |cs| :: CleanRule(cs[k])
    ensures CleanOps(EmitAll(cs, base))
    decreases cs, 0
  {
    if cs != [] {
      EmitAllStep(cs, base);
      EmitClean(cs[0], base);
      EmitAllClean(cs[1..], base + |Emit(cs[0], base)|);
    }
  }

  // ---- Compiling and planning -----------------------------------------------------------------------------------

  function ProgramOf(c: Cond): Program {
    Program(Emit(c, 0), |Emit(c, 0)| - 1)
  }

  function ProgramsOf(cs: seq<Cond>): (programs: seq<Program>)
    ensures |programs| == |cs| && forall r | 0 <= r < |cs| :: programs[r] == ProgramOf(cs[r])
  {
    seq(|cs|, r requires 0 <= r < |cs| => ProgramOf(cs[r]))
  }

  /** What the compiler hands to the engine. */
  datatype Compiled = Compiled(pool: seq<Predicate>, plans: seq<E.Plan>, order: seq<nat>)

  /** One plan per rule over the shared pool, which holds predicates of the rules and nothing else. */
  ghost predicate Planned(cs: seq<Cond>, k: Compiled) {
    && k.pool == PoolOf(ProgramsOf(cs))
    && |k.plans| == |cs|
    && forall r | 0 <= r < |cs| :: PlanFor(k.plans[r], ProgramOf(cs[r]), k.pool)
  }

  method CompileRule(c: Cond) returns (program: Program)
    ensures program == ProgramOf(c)
  {
    hide Emit;
    var visitor := new CompileVisitor();
    var reg := visitor.Compile(c);
    assert visitor.ops == Emit(c, 0);
    program := Program(visitor.ops, reg);
  }

  lemma ProgramsNumbered(cs: seq<Cond>)
    ensures forall r | 0 <= r < |cs| :: Numbered(ProgramsOf(cs)[r].ops) && ProgramsOf(cs)[r].final < |ProgramsOf(cs)[r].ops|
  {
    hide Emit;
    forall r | 0 <= r < |cs| ensures Numbered(ProgramOf(cs[r]).ops) && ProgramOf(cs[r]).final < |ProgramOf(cs[r]).ops| {
      EmitNumbered(cs[r], 0);
    }
  }

  /** Each rule gets a visitor of its own; the plans are built from all the programs. */
  method CompileRules(cs: seq<Cond>) returns (k: Compiled)
    ensures Planned(cs, k)
    ensures multiset(k.order) == multiset(seq(|k.pool|, i => i)) && SortedBy(k.order, OrderLess(k.pool))
  {
    hide ProgramOf, PlanFor, PoolOf, SortedBy, Numbered, OrderLess;
    var programs: seq<Program> := [];
    for r := 0 to |cs|
      invariant programs == ProgramsOf(cs)[..r]
    {
      var program := CompileRule(cs[r]);
      programs := programs + [program];
    }
    assert programs == ProgramsOf(cs);
    ProgramsNumbered(cs);
    var pool, plans, order := BuildGlobalPlan(programs);
    k := Compiled(pool, plans, order);
  }

  /** Replacing predicates by pool indices leaves every node what its operation is. */
  lemma PlannedIsOk(cs: seq<Cond>, k: Compiled, r: nat, w: World, adaptive: bool, rows: seq<Row>)
    requires Planned(cs, k) && r < |cs| && forall q | 0 <= q < |cs| :: CleanRule(cs[q])
    ensures Setup(w, k.plans[r], adaptive, ProgramOf(cs[r]), k.pool, rows).Ok()
  {
    hide Emit, PlanFor, PoolOf, PredicateKey.Clean, CleanRule, Setup.Ok;
    EmitNumbered(cs[r], 0);
    EmitClean(cs[r], 0);
    forall p | 0 <= p < |k.pool| ensures PredicateKey.Clean(k.pool[p]) {
      PoolAsked(ProgramsOf(cs), k.pool[p]);
      var q :| 0 <= q < |cs| && Asks(ProgramsOf(cs)[q].ops, k.pool[p]);
      EmitClean(cs[q], 0);
    }
    BuiltIsOk(Setup(w, k.plans[r], adaptive, ProgramOf(cs[r]), k.pool, rows));
  }

  /** The rule's plan has no AND of two or more children inside a later child of an AND. */
  ghost predicate SafePlan(plan: E.Plan, adaptive: bool) {
    E.WellFormed(plan, adaptive) && T.Safe(E.Decode(plan, adaptive, plan.root))
  }

  /** For every set of rules whose listed values hold no separator and without a stuck negation: every rule
      keeps its meaning through compiling, sharing, planning and evaluating. */
  lemma EveryRuleExact(cs: seq<Cond>, k: Compiled, r: nat, w: World, adaptive: bool, rows: seq<Row>, o: T.Options, leftover: seq<nat>)
    requires Planned(cs, k) && r < |cs| && forall q | 0 <= q < |cs| :: CleanRule(cs[q])
    requires NoStuckNegation(cs[r]) && (o.selection ==> SafePlan(k.plans[r], adaptive))
    ensures var s := Setup(w, k.plans[r], adaptive, ProgramOf(cs[r]), k.pool, rows);
            s.Ok() &&
            var mask := E.Run(E.Job(s.plan, adaptive, s.Env(o)), s.plan.root, E.Store(map[], leftover)).mask;
            |mask| == |rows| && forall i | 0 <= i < |rows| :: mask[i] == Meaning(w, cs[r], rows[i])
  {
    PlannedIsOk(cs, k, r, w, adaptive, rows);
    RuleMaskIsMeaning(Setup(w, k.plans[r], adaptive, ProgramOf(cs[r]), k.pool, rows), o, cs[r], leftover);
  }

  // ---- When sharing changes a rule -------------------------------------------------------------------------------

  lemma OnePool(p: Predicate, q: Predicate)
    requires PredicateKey.Key(p) == PredicateKey.Key(q)
    ensures PoolOf(ProgramsOf([Test(p), Test(q)])) == [p]
  {
    var programs := ProgramsOf([Test(p), Test(q)]);
    var first, second := [PredOp(p, 0)], [PredOp(q, 0)];
    assert programs[0].ops == first && programs[1].ops == second;
    assert programs[..1][..0] == [] && programs[..1][0] == programs[0];
    assert first[..0] == [] && PoolAfter([], first) == [p];
    assert second[..0] == [] && HasKey([p], PredicateKey.Key(q)) by { assert [p][0] == p; }
    assert PoolOf(programs[..1]) == PoolAfter(PoolOf([]), first) == [p];
    assert PoolAfter([p], second) == PoolWith(PoolAfter([p], []), second[0]) == [p];
    assert programs[1] == programs[|programs| - 1];
  }

  /** Evaluated on one row, the plan of the second rule does not give that rule's meaning. */
  ghost predicate SecondWrong(q: Predicate, w: World, row: Row, k: Compiled, adaptive: bool, o: T.Options)
    requires |k.plans| == 2
  {
    var s := Setup(w, k.plans[1], adaptive, ProgramOf(Test(q)), k.pool, [row]);
    && E.WellFormed(s.plan, adaptive) && s.plan.root < |s.plan.nodes|
    && E.Run(E.Job(s.plan, adaptive, s.Env(o)), s.plan.root, E.Store(map[], [])).mask != [Meaning(w, Test(q), row)]
  }

  /** Two rules of one leaf each.  If a value of the first holds the separator, the second, which lists the same
      values split there, is handed the first one's predicate and answers wrongly on some row. */
  lemma SharedRuleGoesWrong(p: Predicate) returns (q: Predicate, w: World, row: Row)
    requires p.Categorical? && p.values.Many? && !PredicateKey.Clean(p)
    ensures PredicateKey.Clean(q) && q == p.(values := Many(PredicateKey.Split(p.values.vs)))
    ensures forall k: Compiled, adaptive: bool, o: T.Options | Planned([Test(p), Test(q)], k) ::
              SecondWrong(q, w, row, k, adaptive, o)
  {
    q, w, row := PredicateKey.SplitAnswersDifferently(p);
    OnePool(p, q);
    forall k: Compiled, adaptive: bool, o: T.Options | Planned([Test(p), Test(q)], k)
      ensures SecondWrong(q, w, row, k, adaptive, o)
    {
      SharedMask(p, q, w, row, k, adaptive, o);
    }
  }

  lemma SharedMask(p: Predicate, q: Predicate, w: World, row: Row, k: Compiled, adaptive: bool, o: T.Options)
    requires Planned([Test(p), Test(q)], k) && PoolOf(ProgramsOf([Test(p), Test(q)])) == [p]
    requires Holds(w, p, row) != Holds(w, q, row)
    ensures SecondWrong(q, w, row, k, adaptive, o)
  {
    var plan := k.plans[1];
    assert PlanFor(plan, ProgramOf([Test(p), Test(q)][1]), k.pool);
    assert NodeFor(plan.nodes[0], ProgramOf(Test(q)).ops[0], k.pool);
    assert plan.nodes[0] == E.Pred(0);
    var s := Setup(w, plan, adaptive, ProgramOf(Test(q)), k.pool, [row]);
    assert s.Env(o).preds[0] == [Holds(w, p, row)];
  }
}
