/** Which rules are evaluated exactly when the children of an AND are taken in the order of their costs, which is the
    default: the cheapest child comes first, and children of equal cost in any order. */
module CostShape {
  import opened Predicates
  import opened RuleCompiler
  import opened GlobalPlan
  import opened RulePipeline
  import opened RuleSet
  import opened PlanShape
  import PredicateKey
  import E = EvalPlan
  import T = EvalTree

  // ---- Costs of conditions -------------------------------------------------------------------------------------

  /** What `expr_cost` makes of the condition's node. */
  function Cost(c: Cond): nat
    decreases c, 1
  {
    match c
    case Test(p) => PredicateCost(p)
    case Derived(p) => PredicateCost(p)
    case All(cs) => Cheapest(cs, 5)
    case Any(cs) => Cheapest(cs, 5)
    case Neg(d) =>
      if d.Test? && Flips(d.p) then PredicateCost(d.p)
      else if Cost(d) < 6 then Cost(d) else 6
  }

  function Cheapest(cs: seq<Cond>, cost: nat): nat
    decreases cs, 0
  {
    if cs == [] then cost
    else
      var rest := Cheapest(cs[1..], cost);
      if Cost(cs[0]) < rest then Cost(cs[0]) else rest
  }

  /** In every AND of two or more children, a child that holds such an AND costs less than every other child. */
  predicate SafeByCost(c: Cond) {
    match c
    case Test(_) => true
    case Derived(_) => true
    case All(cs) =>
      && (forall k | 0 <= k < |cs| :: SafeByCost(cs[k]))
      && (forall k, j | 0 <= k < |cs| && 0 <= j < |cs| && j != k && !Plain(cs[k]) :: Cost(cs[k]) < Cost(cs[j]))
    case Any(cs) => forall k | 0 <= k < |cs| :: SafeByCost(cs[k])
    case Neg(d) => SafeByCost(d)
  }

  /** v is the least of `cost` and the costs of some children. */
  /** A connective costs what its cheapest child does, and 5 at the most; a negation at most 6. */
  lemma CondCostSays(c: Cond)
    ensures c.All? || c.Any? ==>
              && Cost(c) <= 5 && (forall k | 0 <= k < |c.cs| :: Cost(c) <= Cost(c.cs[k]))
              && (Cost(c) == 5 || exists k :: 0 <= k < |c.cs| && Cost(c) == Cost(c.cs[k]))
    ensures c.Neg? && !c.c.Test? ==> Cost(c) == if Cost(c.c) <= 6 then Cost(c.c) else 6
  {
    if c.All? || c.Any? { CheapestSays(c.cs, 5); }
  }

  lemma {:induction false} CheapestSays(cs: seq<Cond>, cost: nat)
    ensures Cheapest(cs, cost) <= cost && forall k | 0 <= k < |cs| :: Cheapest(cs, cost) <= Cost(cs[k])
    ensures Cheapest(cs, cost) == cost || exists k :: 0 <= k < |cs| && Cheapest(cs, cost) == Cost(cs[k])
  {
    if cs != [] {
      CheapestSays(cs[1..], cost);
      hide Cost;
      forall k | 0 <= k < |cs| ensures Cheapest(cs, cost) <= Cost(cs[k]) {
        if k > 0 { assert cs[k] == cs[1..][k - 1]; }
      }
      if k :| 0 <= k < |cs[1..]| && Cheapest(cs[1..], cost) == Cost(cs[1..][k]) { assert cs[1..][k] == cs[k + 1]; }
      assert Cost(cs[0]) < Cheapest(cs[1..], cost) ==> Cheapest(cs, cost) == Cost(cs[0]);
    }
  }

  ghost predicate Least(v: nat, costs: seq<nat>, cost: nat) {
    && v <= cost && (forall k | 0 <= k < |costs| :: v <= costs[k])
    && (v == cost || v in costs)
  }

  lemma LeastIsOne(v: nat, u: nat, costs: seq<nat>, others: seq<nat>, cost: nat)
    requires Least(v, costs, cost) && Least(u, others, cost) && forall x :: x in costs <==> x in others
    ensures v == u
  {
    if v in costs { assert v in others; }
    if u in others { assert u in costs; }
  }

  function CondCosts(cs: seq<Cond>): (costs: seq<nat>)
    ensures |costs| == |cs|
  {
    seq(|cs|, k requires 0 <= k < |cs| => Cost(cs[k]))
  }

  lemma {:induction false} CheapestLeast(cs: seq<Cond>, cost: nat)
    ensures Least(Cheapest(cs, cost), CondCosts(cs), cost)
  {
    if cs != [] {
      CheapestLeast(cs[1..], cost);
      assert CondCosts(cs) == [Cost(cs[0])] + CondCosts(cs[1..]);
    }
  }

  function NodeCosts(nodes: seq<E.Node>, pool: seq<Predicate>, xs: seq<nat>): (costs: seq<nat>)
    ensures |costs| == |xs|
  {
    seq(|xs|, k requires 0 <= k < |xs| => ExprCost(nodes, pool, xs[k]))
  }

  lemma {:induction false} CostAllLeast(nodes: seq<E.Node>, pool: seq<Predicate>, bound: nat, xs: seq<nat>, cost: nat)
    requires E.Below(xs, bound)
    ensures Least(CostAll(nodes, pool, bound, xs, cost), NodeCosts(nodes, pool, xs), cost)
    decreases |xs|
  {
    if xs != [] {
      var c := ExprCost(nodes, pool, xs[0]);
      CostAllLeast(nodes, pool, bound, xs[1..], if c < cost then c else cost);
      assert NodeCosts(nodes, pool, xs) == [c] + NodeCosts(nodes, pool, xs[1..]);
    }
  }

  lemma SameCosts(nodes: seq<E.Node>, pool: seq<Predicate>, xs: seq<nat>, ys: seq<nat>)
    requires forall x: nat :: x in xs <==> x in ys
    ensures forall v :: v in NodeCosts(nodes, pool, xs) <==> v in NodeCosts(nodes, pool, ys)
  {
    hide ExprCost;
    CostsAmong(nodes, pool, xs, ys);
    CostsAmong(nodes, pool, ys, xs);
  }

  lemma CostsAmong(nodes: seq<E.Node>, pool: seq<Predicate>, xs: seq<nat>, ys: seq<nat>)
    requires forall x: nat :: x in xs ==> x in ys
    ensures forall v :: v in NodeCosts(nodes, pool, xs) ==> v in NodeCosts(nodes, pool, ys)
  {
    hide ExprCost;
    forall v | v in NodeCosts(nodes, pool, xs) ensures v in NodeCosts(nodes, pool, ys) {
      var k :| 0 <= k < |xs| && ExprCost(nodes, pool, xs[k]) == v;
      assert xs[k] in ys;
      var l :| 0 <= l < |ys| && ys[l] == xs[k];
      assert NodeCosts(nodes, pool, ys)[l] == v;
    }
  }

  // ---- Nodes and conditions -----------------------------------------------------------------------------------------

  /** Node r costs what the condition does and has no nested AND exactly when the condition has none. */
  ghost predicate Prices(s: Setup, c: Cond, r: nat) {
    && E.WellFormed(s.plan, s.adaptive) && r < |s.plan.nodes|
    && ExprCost(s.plan.nodes, s.pool, r) == Cost(c)
    && (T.NoSparse(E.Decode(s.plan, s.adaptive, r)) <==> Plain(c))
  }

  ghost predicate PricesAll(s: Setup, cs: seq<Cond>, rs: seq<nat>) {
    |rs| == |cs| && forall k | 0 <= k < |cs| :: Prices(s, cs[k], rs[k])
  }

  /** The cost of an AND or OR node is that of its condition, whatever the order of the children. */
  lemma ConnectiveCost(s: Setup, cs: seq<Cond>, rs: seq<nat>, children: seq<nat>, n: nat)
    requires PricesAll(s, cs, rs) && E.Below(children, n) && forall x: nat :: x in children <==> x in rs
    ensures CostAll(s.plan.nodes, s.pool, n, children, 5) == Cheapest(cs, 5)
  {
    hide ExprCost, Cost, Cheapest, CostAll, E.Decode, T.NoSparse, Plain;
    CostAllLeast(s.plan.nodes, s.pool, n, children, 5);
    CheapestLeast(cs, 5);
    SameCosts(s.plan.nodes, s.pool, children, rs);
    assert NodeCosts(s.plan.nodes, s.pool, rs) == CondCosts(cs) by {
      forall k | 0 <= k < |cs| ensures NodeCosts(s.plan.nodes, s.pool, rs)[k] == CondCosts(cs)[k] {
        assert Prices(s, cs[k], rs[k]);
      }
    }
    LeastIsOne(CostAll(s.plan.nodes, s.pool, n, children, 5), Cheapest(cs, 5),
               NodeCosts(s.plan.nodes, s.pool, children), CondCosts(cs), 5);
  }

  lemma {:induction false} PlanPrices(s: Setup, c: Cond, base: nat)
    requires s.Ok() && s.adaptive && Placed(c, base, s.program.ops)
    ensures Prices(s, c, Root(c, base))
    decreases c, 1
  {
    PlanMirrors(s, c, base);
    match c
    case Test(p) => LeafPrices(s, c, PredOp(p, base), base);
    case Derived(p) => LeafPrices(s, c, PredOp(p, base), base);
    case All(cs) =>
      PlacedConnective(c, cs, base, s.program.ops);
      PlanPricesAll(s, cs, base);
      ConnectivePrices(s, c, cs, Root(c, base), Roots(cs, base));
    case Any(cs) =>
      PlacedConnective(c, cs, base, s.program.ops);
      PlanPricesAll(s, cs, base);
      ConnectivePrices(s, c, cs, Root(c, base), Roots(cs, base));
    case Neg(d) =>
      if d.Test? && Flips(d.p) {
        LeafPrices(s, c, PredOp(Invert(d.p), base), base);
      } else {
        PlacedNegation(d, base, s.program.ops);
        PlanPrices(s, d, base);
        NegationPrices(s, d, Root(d, base), Root(c, base));
      }
  }

  lemma {:induction false} PlanPricesAll(s: Setup, cs: seq<Cond>, base: nat)
    requires s.Ok() && s.adaptive && PlacedAll(cs, base, s.program.ops)
    ensures PricesAll(s, cs, Roots(cs, base))
    decreases cs, 0
  {
    if cs != [] {
      hide *;
      var mid := base + |Emit(cs[0], base)|;
      RootLast(cs[0], base);
      PlacedFirst(cs, base, s.program.ops);
      EmitAllStep(cs, base);
      PlanPrices(s, cs[0], base);
      PlanPricesAll(s, cs[1..], mid);
      PricesCons(s, cs, mid - 1, Roots(cs[1..], mid));
    }
  }

  lemma RootLast(c: Cond, base: nat)
    ensures Root(c, base) == base + |Emit(c, base)| - 1
  {
  }

  lemma PricesCons(s: Setup, cs: seq<Cond>, r: nat, rest: seq<nat>)
    requires cs != [] && Prices(s, cs[0], r) && PricesAll(s, cs[1..], rest)
    ensures PricesAll(s, cs, [r] + rest)
  {
    hide Prices;
    forall k | 0 <= k < |cs| ensures Prices(s, cs[k], ([r] + rest)[k]) {
      assert k > 0 ==> Prices(s, cs[1..][k - 1], rest[k - 1]);
    }
  }

  lemma MirrorsPlain(s: Setup, c: Cond, r: nat)
    requires Mirrors(s, c, r)
    ensures E.WellFormed(s.plan, s.adaptive) && r < |s.plan.nodes|
    ensures T.NoSparse(E.Decode(s.plan, s.adaptive, r)) <==> Plain(c)
  {
  }

  lemma LeafPrices(s: Setup, c: Cond, op: Op, base: nat)
    requires s.Ok() && Placed(c, base, s.program.ops) && Mirrors(s, c, Root(c, base))
    requires Emit(c, base) == [op] && op.PredOp? && Cost(c) == PredicateCost(op.p)
    ensures Prices(s, c, Root(c, base))
  {
    hide *;
    PlacedParts(c, base, s.program.ops, [], op);
    LeafCost(s, Root(c, base), op);
    MirrorsPlain(s, c, Root(c, base));
    IsPrice(s, c, Root(c, base));
  }

  lemma LeafCost(s: Setup, n: nat, op: Op)
    requires s.Ok() && n < |s.program.ops| && s.program.ops[n] == op && op.PredOp?
    ensures n < |s.plan.nodes| && ExprCost(s.plan.nodes, s.pool, n) == PredicateCost(op.p)
  {
    hide PredicateCost;
    assert s.IsNode(s.plan.nodes[n], s.program.ops[n], n);
  }

  lemma IsPrice(s: Setup, c: Cond, r: nat)
    requires E.WellFormed(s.plan, s.adaptive) && r < |s.plan.nodes|
    requires ExprCost(s.plan.nodes, s.pool, r) == Cost(c)
    requires T.NoSparse(E.Decode(s.plan, s.adaptive, r)) <==> Plain(c)
    ensures Prices(s, c, r)
  {
  }

  lemma NegationPrices(s: Setup, d: Cond, child: nat, n: nat)
    requires s.Ok() && n < |s.plan.nodes| && s.program.ops[n] == NotOp(child, n) && Prices(s, d, child)
    requires !(d.Test? && Flips(d.p)) && Mirrors(s, Neg(d), n)
    ensures Prices(s, Neg(d), n)
  {
    hide *;
    NotNode(s, child, n);
    OneCost(s.plan.nodes, s.pool, n, child, 6);
    MirrorsPlain(s, Neg(d), n);
    NegationCost(s, d, child, n);
    IsPrice(s, Neg(d), n);
  }

  lemma NotNode(s: Setup, child: nat, n: nat)
    requires s.Ok() && n < |s.plan.nodes| && s.program.ops[n] == NotOp(child, n)
    ensures s.plan.nodes[n] == E.Not(child) && child < n
    ensures ExprCost(s.plan.nodes, s.pool, n) == CostAll(s.plan.nodes, s.pool, n, [child], 6)
  {
    assert s.IsNode(s.plan.nodes[n], s.program.ops[n], n);
    assert E.Below(Inputs(s.program.ops[n]), n) && Inputs(s.program.ops[n])[0] == child;
  }

  lemma OneCost(nodes: seq<E.Node>, pool: seq<Predicate>, bound: nat, x: nat, cost: nat)
    requires x < bound
    ensures CostAll(nodes, pool, bound, [x], cost) == if ExprCost(nodes, pool, x) < cost then ExprCost(nodes, pool, x) else cost
  {
    hide ExprCost;
    assert [x][1..] == [];
    assert CostAll(nodes, pool, bound, [], cost) == cost;
  }

  lemma NegationCost(s: Setup, d: Cond, child: nat, n: nat)
    requires Prices(s, d, child) && !(d.Test? && Flips(d.p))
    ensures Cost(Neg(d)) == if ExprCost(s.plan.nodes, s.pool, child) < 6 then ExprCost(s.plan.nodes, s.pool, child) else 6
  {
  }

  lemma ConnectivePrices(s: Setup, c: Cond, cs: seq<Cond>, n: nat, rs: seq<nat>)
    requires s.Ok() && s.adaptive && n < |s.plan.nodes| && Inputs(s.program.ops[n]) == rs && PricesAll(s, cs, rs)
    requires (c == All(cs) && s.program.ops[n].AndOp?) || (c == Any(cs) && s.program.ops[n].OrOp?)
    requires Mirrors(s, c, n)
    ensures Prices(s, c, n)
  {
    hide *;
    ChildrenInOrder(s, n);
    ChosenMembers(s, n);
    MirrorsPlain(s, c, n);
    ConnectiveCost(s, cs, rs, E.Chosen(s.plan.nodes[n], s.adaptive), n);
    NodeCost(s, n);
    CondCost(c, cs);
    IsPrice(s, c, n);
  }

  lemma NodeCost(s: Setup, n: nat)
    requires s.adaptive && n < |s.plan.nodes| && (s.plan.nodes[n].And? || s.plan.nodes[n].Or?)
    ensures ExprCost(s.plan.nodes, s.pool, n) == CostAll(s.plan.nodes, s.pool, n, E.Chosen(s.plan.nodes[n], s.adaptive), 5)
  {
  }

  lemma CondCost(c: Cond, cs: seq<Cond>)
    requires c == All(cs) || c == Any(cs)
    ensures Cost(c) == Cheapest(cs, 5)
  {
  }

  // ---- Orders of evaluation -----------------------------------------------------------------------------------------

  /** Node a must stand before node b: it is cheaper, or, where the worst order is asked for, as cheap and without a
      nested AND while b has one. */
  ghost predicate Precedes(s: Setup, worst: bool, a: nat, b: nat)
    requires E.WellFormed(s.plan, s.adaptive) && a < |s.plan.nodes| && b < |s.plan.nodes|
  {
    var ca, cb := ExprCost(s.plan.nodes, s.pool, a), ExprCost(s.plan.nodes, s.pool, b);
    || ca < cb
    || (worst && ca == cb && T.NoSparse(E.Decode(s.plan, s.adaptive, a)) && !T.NoSparse(E.Decode(s.plan, s.adaptive, b)))
  }

  ghost predicate InOrder(s: Setup, worst: bool, chosen: seq<nat>)
    requires E.WellFormed(s.plan, s.adaptive) && E.Below(chosen, |s.plan.nodes|)
  {
    forall i, j | 0 <= i < j < |chosen| :: !Precedes(s, worst, chosen[j], chosen[i])
  }

  ghost predicate AllInOrder(s: Setup, worst: bool)
    requires E.WellFormed(s.plan, s.adaptive)
  {
    forall n: nat | n < |s.plan.nodes| && s.plan.nodes[n].And? && E.Below(E.Chosen(s.plan.nodes[n], s.adaptive), |s.plan.nodes|) ::
      InOrder(s, worst, E.Chosen(s.plan.nodes[n], s.adaptive))
  }

  /** Node r is safe if its condition is, and in the worst order only then. */
  ghost predicate Judges(s: Setup, worst: bool, c: Cond, r: nat) {
    && E.WellFormed(s.plan, s.adaptive) && r < |s.plan.nodes|
    && (SafeByCost(c) ==> T.Safe(E.Decode(s.plan, s.adaptive, r)))
    && (worst && T.Safe(E.Decode(s.plan, s.adaptive, r)) ==> SafeByCost(c))
  }

  ghost predicate JudgesAll(s: Setup, worst: bool, cs: seq<Cond>, rs: seq<nat>) {
    |rs| == |cs| && forall k | 0 <= k < |cs| :: Judges(s, worst, cs[k], rs[k])
  }

  /** The children of an AND: each node of the chosen order with its condition. */
  ghost predicate Arranged(s: Setup, cs: seq<Cond>, rs: seq<nat>, chosen: seq<nat>, ds: seq<T.Expr>)
    requires E.WellFormed(s.plan, s.adaptive) && E.Below(chosen, |s.plan.nodes|)
  {
    && |ds| == |chosen| == |rs| == |cs|
    && (forall k | 0 <= k < |ds| :: ds[k] == E.Decode(s.plan, s.adaptive, chosen[k]))
    && (forall x: nat :: x in chosen <==> x in rs)
    && (forall i, j | 0 <= i < j < |chosen| :: chosen[i] != chosen[j])
    && (forall i, j | 0 <= i < j < |rs| :: rs[i] != rs[j])
  }

  /** The position of child j in the chosen order. */
  lemma PlaceOf(s: Setup, cs: seq<Cond>, rs: seq<nat>, chosen: seq<nat>, ds: seq<T.Expr>, j: nat) returns (k: nat)
    requires E.WellFormed(s.plan, s.adaptive) && E.Below(chosen, |s.plan.nodes|) && Arranged(s, cs, rs, chosen, ds) && j < |cs|
    ensures k < |ds| && chosen[k] == rs[j] && rs[j] < |s.plan.nodes| && ds[k] == E.Decode(s.plan, s.adaptive, rs[j])
  {
    assert rs[j] in chosen;
    k :| 0 <= k < |chosen| && chosen[k] == rs[j];
  }

  lemma ChildAt(s: Setup, cs: seq<Cond>, rs: seq<nat>, chosen: seq<nat>, ds: seq<T.Expr>, k: nat) returns (j: nat)
    requires E.WellFormed(s.plan, s.adaptive) && E.Below(chosen, |s.plan.nodes|) && Arranged(s, cs, rs, chosen, ds) && k < |ds|
    ensures j < |cs| && chosen[k] == rs[j] && ds[k] == E.Decode(s.plan, s.adaptive, rs[j])
  {
    assert chosen[k] in rs;
    j :| 0 <= j < |rs| && rs[j] == chosen[k];
  }

  lemma PricesSay(s: Setup, cs: seq<Cond>, rs: seq<nat>, j: nat)
    requires PricesAll(s, cs, rs) && j < |cs|
    ensures E.WellFormed(s.plan, s.adaptive) && rs[j] < |s.plan.nodes|
    ensures ExprCost(s.plan.nodes, s.pool, rs[j]) == Cost(cs[j])
    ensures T.NoSparse(E.Decode(s.plan, s.adaptive, rs[j])) <==> Plain(cs[j])
  {
    assert Prices(s, cs[j], rs[j]);
  }

  /** A child with a nested AND that is cheaper than all others stands first. */
  lemma CheapestFirst(s: Setup, worst: bool, cs: seq<Cond>, rs: seq<nat>, chosen: seq<nat>, ds: seq<T.Expr>)
    requires E.WellFormed(s.plan, s.adaptive) && E.Below(chosen, |s.plan.nodes|) && Arranged(s, cs, rs, chosen, ds)
    requires PricesAll(s, cs, rs) && InOrder(s, worst, chosen)
    requires forall k, j | 0 <= k < |cs| && 0 <= j < |cs| && j != k && !Plain(cs[k]) :: Cost(cs[k]) < Cost(cs[j])
    ensures forall k | 1 <= k < |ds| :: T.NoSparse(ds[k])
  {
    hide Arranged, PricesAll, T.NoSparse, Plain, Cost, ExprCost, E.Decode;
    forall k: nat | 1 <= k < |ds| ensures T.NoSparse(ds[k]) {
      SameLength(s, cs, rs, chosen, ds);
      var j := ChildAt(s, cs, rs, chosen, ds, k);
      var i := ChildAt(s, cs, rs, chosen, ds, 0);
      PricesSay(s, cs, rs, j);
      PricesSay(s, cs, rs, i);
      assert !Precedes(s, worst, chosen[k], chosen[0]);
    }
  }

  lemma SameLength(s: Setup, cs: seq<Cond>, rs: seq<nat>, chosen: seq<nat>, ds: seq<T.Expr>)
    requires E.WellFormed(s.plan, s.adaptive) && E.Below(chosen, |s.plan.nodes|) && Arranged(s, cs, rs, chosen, ds)
    ensures |ds| == |chosen| == |rs| == |cs|
    ensures forall i, j | 0 <= i < j < |chosen| :: chosen[i] != chosen[j]
    ensures forall i, j | 0 <= i < j < |rs| :: rs[i] != rs[j]
  {
  }

  /** In the worst order the first child is the only one with a nested AND only if that child is cheaper than all
      others. */
  lemma FirstCheapest(s: Setup, cs: seq<Cond>, rs: seq<nat>, chosen: seq<nat>, ds: seq<T.Expr>, k: nat, j: nat)
    requires E.WellFormed(s.plan, s.adaptive) && E.Below(chosen, |s.plan.nodes|) && Arranged(s, cs, rs, chosen, ds)
    requires PricesAll(s, cs, rs) && InOrder(s, true, chosen)
    requires forall i | 1 <= i < |ds| :: T.NoSparse(ds[i])
    requires k < |cs| && j < |cs| && j != k && !Plain(cs[k])
    ensures Cost(cs[k]) < Cost(cs[j])
  {
    hide Arranged, PricesAll, T.NoSparse, Plain, Cost, ExprCost, E.Decode;
    SameLength(s, cs, rs, chosen, ds);
    var a := PlaceOf(s, cs, rs, chosen, ds, k);
    var b := PlaceOf(s, cs, rs, chosen, ds, j);
    PricesSay(s, cs, rs, k);
    PricesSay(s, cs, rs, j);
    assert a == 0;
    assert rs[k] != rs[j] && b != 0;
    assert !Precedes(s, true, chosen[b], chosen[0]);
  }

  lemma AndJudges(s: Setup, worst: bool, cs: seq<Cond>, rs: seq<nat>, chosen: seq<nat>, ds: seq<T.Expr>)
    requires E.WellFormed(s.plan, s.adaptive) && E.Below(chosen, |s.plan.nodes|) && Arranged(s, cs, rs, chosen, ds)
    requires PricesAll(s, cs, rs) && JudgesAll(s, worst, cs, rs) && InOrder(s, worst, chosen)
    ensures SafeByCost(All(cs)) ==> T.Safe(T.AllOf(ds))
    ensures worst && T.Safe(T.AllOf(ds)) ==> SafeByCost(All(cs))
  {
    hide Arranged, PricesAll, T.NoSparse, Plain, Cost, InOrder, JudgesAll, E.Decode;
    SomeSafe(s, worst, cs, rs, chosen, ds);
    if SafeByCost(All(cs)) { CheapestFirst(s, worst, cs, rs, chosen, ds); }
    if worst && T.Safe(T.AllOf(ds)) {
      forall k: nat, j: nat | k < |cs| && j < |cs| && j != k && !Plain(cs[k]) ensures Cost(cs[k]) < Cost(cs[j]) {
        FirstCheapest(s, cs, rs, chosen, ds, k, j);
      }
    }
  }

  lemma SomeSafe(s: Setup, worst: bool, cs: seq<Cond>, rs: seq<nat>, chosen: seq<nat>, ds: seq<T.Expr>)
    requires E.WellFormed(s.plan, s.adaptive) && E.Below(chosen, |s.plan.nodes|) && Arranged(s, cs, rs, chosen, ds)
    requires JudgesAll(s, worst, cs, rs)
    ensures (forall k | 0 <= k < |cs| :: SafeByCost(cs[k])) ==> forall k | 0 <= k < |ds| :: T.Safe(ds[k])
    ensures worst && (forall k | 0 <= k < |ds| :: T.Safe(ds[k])) ==> forall k | 0 <= k < |cs| :: SafeByCost(cs[k])
  {
    hide Arranged, T.Safe, SafeByCost, E.Decode;
    if forall k | 0 <= k < |cs| :: SafeByCost(cs[k]) {
      forall k: nat | k < |ds| ensures T.Safe(ds[k]) {
        var j := ChildAt(s, cs, rs, chosen, ds, k);
        assert Judges(s, worst, cs[j], rs[j]);
      }
    }
    if worst && forall k | 0 <= k < |ds| :: T.Safe(ds[k]) {
      forall j: nat | j < |cs| ensures SafeByCost(cs[j]) {
        var k := PlaceOf(s, cs, rs, chosen, ds, j);
        assert Judges(s, worst, cs[j], rs[j]);
      }
    }
  }

  lemma {:induction false} PlanJudges(s: Setup, worst: bool, c: Cond, base: nat)
    requires s.Ok() && s.adaptive && Placed(c, base, s.program.ops) && AllInOrder(s, worst)
    ensures Judges(s, worst, c, Root(c, base))
    decreases c, 1
  {
    match c
    case Test(p) => LeafJudges(s, worst, c, PredOp(p, base), base);
    case Derived(p) => LeafJudges(s, worst, c, PredOp(p, base), base);
    case All(cs) =>
      PlacedConnective(c, cs, base, s.program.ops);
      PlanJudgesAll(s, worst, cs, base);
      AllJudges(s, worst, c, cs, base);
    case Any(cs) =>
      PlacedConnective(c, cs, base, s.program.ops);
      PlanJudgesAll(s, worst, cs, base);
      AnyJudges(s, worst, c, cs, base);
    case Neg(d) =>
      if d.Test? && Flips(d.p) {
        LeafJudges(s, worst, c, PredOp(Invert(d.p), base), base);
      } else {
        PlacedNegation(d, base, s.program.ops);
        PlanJudges(s, worst, d, base);
        NegationJudges(s, worst, d, Root(d, base), Root(c, base));
      }
  }

  lemma {:induction false} PlanJudgesAll(s: Setup, worst: bool, cs: seq<Cond>, base: nat)
    requires s.Ok() && s.adaptive && PlacedAll(cs, base, s.program.ops) && AllInOrder(s, worst)
    ensures JudgesAll(s, worst, cs, Roots(cs, base))
    decreases cs, 0
  {
    if cs != [] {
      hide *;
      var mid := base + |Emit(cs[0], base)|;
      RootLast(cs[0], base);
      PlacedFirst(cs, base, s.program.ops);
      EmitAllStep(cs, base);
      PlanJudges(s, worst, cs[0], base);
      PlanJudgesAll(s, worst, cs[1..], mid);
      JudgesCons(s, worst, cs, mid - 1, Roots(cs[1..], mid));
    }
  }

  lemma JudgesCons(s: Setup, worst: bool, cs: seq<Cond>, r: nat, rest: seq<nat>)
    requires cs != [] && Judges(s, worst, cs[0], r) && JudgesAll(s, worst, cs[1..], rest)
    ensures JudgesAll(s, worst, cs, [r] + rest)
  {
    hide Judges;
    forall k | 0 <= k < |cs| ensures Judges(s, worst, cs[k], ([r] + rest)[k]) {
      assert k > 0 ==> Judges(s, worst, cs[1..][k - 1], rest[k - 1]);
    }
  }

  lemma LeafJudges(s: Setup, worst: bool, c: Cond, op: Op, base: nat)
    requires s.Ok() && Placed(c, base, s.program.ops)
    requires Emit(c, base) == [op] && op.PredOp? && (c.Test? || c.Derived? || (c.Neg? && c.c.Test?))
    ensures Judges(s, worst, c, Root(c, base))
  {
    hide *;
    PlacedParts(c, base, s.program.ops, [], op);
    WellFormedPlan(s);
    LeafDecodes(s, Root(c, base), op);
    LeafIsSafe(s, worst, c, Root(c, base));
  }

  lemma LeafIsSafe(s: Setup, worst: bool, c: Cond, r: nat)
    requires E.WellFormed(s.plan, s.adaptive) && r < |s.plan.nodes| && E.Decode(s.plan, s.adaptive, r).Leaf?
    requires c.Test? || c.Derived? || (c.Neg? && c.c.Test?)
    ensures Judges(s, worst, c, r)
  {
  }

  lemma NegationJudges(s: Setup, worst: bool, d: Cond, child: nat, n: nat)
    requires s.Ok() && n < |s.plan.nodes| && s.program.ops[n] == NotOp(child, n) && Judges(s, worst, d, child)
    ensures Judges(s, worst, Neg(d), n)
  {
    assert s.IsNode(s.plan.nodes[n], s.program.ops[n], n);
  }

  lemma RootsApart(s: Setup, cs: seq<Cond>, base: nat)
    requires s.Ok() && PlacedAll(cs, base, s.program.ops)
    ensures forall i, j | 0 <= i < j < |cs| :: Roots(cs, base)[i] != Roots(cs, base)[j]
  {
    hide Setup.Ok, Placed, PlacedAll, Emit, EmitAll, Roots, E.WellFormed;
    WellFormedPlan(s);
    PlanLaidAll(s, cs, base);
    LaidApart(s, Roots(cs, base), base, base + |EmitAll(cs, base)|);
  }

  lemma LaidApart(s: Setup, rs: seq<nat>, base: nat, top: nat)
    requires E.WellFormed(s.plan, s.adaptive) && LaidAll(s, rs, base, top)
    ensures forall i, j | 0 <= i < j < |rs| :: rs[i] != rs[j]
  {
    forall i, j | 0 <= i < j < |rs| ensures rs[i] != rs[j] {
      assert rs[i] < E.Low(s.plan, s.adaptive, rs[j]) <= rs[j];
    }
  }

  lemma ChosenApart(s: Setup, n: nat)
    requires E.WellFormed(s.plan, s.adaptive) && n < |s.plan.nodes| && E.TreeShaped(s.plan, s.adaptive, n)
    ensures var chosen := E.Chosen(s.plan.nodes[n], s.adaptive); forall i, j | 0 <= i < j < |chosen| :: chosen[i] != chosen[j]
  {
    var chosen := E.Chosen(s.plan.nodes[n], s.adaptive);
    forall i, j | 0 <= i < j < |chosen| ensures chosen[i] != chosen[j] {
      assert E.Apart(s.plan, s.adaptive, chosen[i], chosen[j]);
    }
  }

  lemma ChildrenArranged(s: Setup, c: Cond, cs: seq<Cond>, base: nat)
    requires s.Ok() && s.adaptive && Placed(c, base, s.program.ops) && (c == All(cs) || c == Any(cs))
    ensures var n := Root(c, base);
            && n < |s.plan.nodes| && E.WellFormed(s.plan, s.adaptive)
            && E.Below(E.Chosen(s.plan.nodes[n], s.adaptive), n)
            && E.Below(E.Chosen(s.plan.nodes[n], s.adaptive), |s.plan.nodes|)
            && var chosen := E.Chosen(s.plan.nodes[n], s.adaptive);
               Arranged(s, cs, Roots(cs, base), chosen, E.DecodeAll(s.plan, s.adaptive, n, chosen))
  {
    hide *;
    var n := Root(c, base);
    PlacedConnective(c, cs, base, s.program.ops);
    ConnectiveInputs(s, c, cs, base);
    WellFormedPlan(s);
    ChildrenInOrder(s, n);
    ChosenMembers(s, n);
    PlanLaid(s, c, base);
    LaidTree(s, n, base);
    ChosenApart(s, n);
    RootsApart(s, cs, base);
    var chosen := E.Chosen(s.plan.nodes[n], s.adaptive);
    BelowMore(chosen, n, |s.plan.nodes|);
    IsArranged(s, cs, Roots(cs, base), chosen, E.DecodeAll(s.plan, s.adaptive, n, chosen));
  }

  lemma BelowMore(xs: seq<nat>, bound: nat, more: nat)
    requires E.Below(xs, bound) && bound <= more
    ensures E.Below(xs, more)
  {
  }

  lemma LaidTree(s: Setup, n: nat, base: nat)
    requires E.WellFormed(s.plan, s.adaptive) && Laid(s, n, base)
    ensures n < |s.plan.nodes| && E.TreeShaped(s.plan, s.adaptive, n)
  {
    hide E.TreeShaped;
  }

  lemma IsArranged(s: Setup, cs: seq<Cond>, rs: seq<nat>, chosen: seq<nat>, ds: seq<T.Expr>)
    requires E.WellFormed(s.plan, s.adaptive) && E.Below(chosen, |s.plan.nodes|)
    requires |ds| == |chosen| == |rs| == |cs| && forall k | 0 <= k < |ds| :: ds[k] == E.Decode(s.plan, s.adaptive, chosen[k])
    requires forall x: nat :: x in chosen <==> x in rs
    requires forall i, j | 0 <= i < j < |chosen| :: chosen[i] != chosen[j]
    requires forall i, j | 0 <= i < j < |rs| :: rs[i] != rs[j]
    ensures Arranged(s, cs, rs, chosen, ds)
  {
  }

  lemma ConnectiveInputs(s: Setup, c: Cond, cs: seq<Cond>, base: nat)
    requires s.Ok() && Root(c, base) < |s.program.ops|
    requires c == All(cs) ==> s.program.ops[Root(c, base)] == AndOp(Roots(cs, base), Root(c, base))
    requires c == Any(cs) ==> s.program.ops[Root(c, base)] == OrOp(Roots(cs, base), Root(c, base))
    requires c == All(cs) || c == Any(cs)
    ensures Root(c, base) < |s.plan.nodes| && !s.program.ops[Root(c, base)].PredOp?
    ensures Inputs(s.program.ops[Root(c, base)]) == Roots(cs, base)
    ensures c == All(cs) ==> s.program.ops[Root(c, base)].AndOp?
    ensures c == Any(cs) ==> s.program.ops[Root(c, base)].OrOp?
  {
    hide Setup.IsNode, Root, Emit;
  }

  lemma AllJudges(s: Setup, worst: bool, c: Cond, cs: seq<Cond>, base: nat)
    requires s.Ok() && s.adaptive && Placed(c, base, s.program.ops) && c == All(cs) && AllInOrder(s, worst)
    requires JudgesAll(s, worst, cs, Roots(cs, base))
    ensures Judges(s, worst, c, Root(c, base))
  {
    hide *;
    var n := Root(c, base);
    PlacedConnective(c, cs, base, s.program.ops);
    ConnectiveInputs(s, c, cs, base);
    ChildrenArranged(s, c, cs, base);
    PlanPricesAll(s, cs, base);
    ChildrenInOrder(s, n);
    DecodeConnective(s, n);
    var chosen := E.Chosen(s.plan.nodes[n], s.adaptive);
    ChosenSorted(s, worst, n, chosen);
    AndJudges(s, worst, cs, Roots(cs, base), chosen, E.DecodeAll(s.plan, s.adaptive, n, chosen));
    IsJudged(s, worst, c, n);
  }

  lemma ChosenSorted(s: Setup, worst: bool, n: nat, chosen: seq<nat>)
    requires E.WellFormed(s.plan, s.adaptive) && AllInOrder(s, worst) && n < |s.plan.nodes| && s.plan.nodes[n].And?
    requires chosen == E.Chosen(s.plan.nodes[n], s.adaptive) && E.Below(chosen, n)
    ensures E.Below(chosen, |s.plan.nodes|) && InOrder(s, worst, chosen)
  {
    hide InOrder;
  }

  lemma IsJudged(s: Setup, worst: bool, c: Cond, n: nat)
    requires E.WellFormed(s.plan, s.adaptive) && n < |s.plan.nodes|
    requires SafeByCost(c) ==> T.Safe(E.Decode(s.plan, s.adaptive, n))
    requires worst && T.Safe(E.Decode(s.plan, s.adaptive, n)) ==> SafeByCost(c)
    ensures Judges(s, worst, c, n)
  {
  }

  lemma AnyJudges(s: Setup, worst: bool, c: Cond, cs: seq<Cond>, base: nat)
    requires s.Ok() && s.adaptive && Placed(c, base, s.program.ops) && c == Any(cs)
    requires JudgesAll(s, worst, cs, Roots(cs, base))
    ensures Judges(s, worst, c, Root(c, base))
  {
    hide *;
    var n := Root(c, base);
    PlacedConnective(c, cs, base, s.program.ops);
    ConnectiveInputs(s, c, cs, base);
    ChildrenArranged(s, c, cs, base);
    ChildrenInOrder(s, n);
    DecodeConnective(s, n);
    var chosen := E.Chosen(s.plan.nodes[n], s.adaptive);
    var ds := E.DecodeAll(s.plan, s.adaptive, n, chosen);
    SomeSafe(s, worst, cs, Roots(cs, base), chosen, ds);
    OrSafe(ds, cs);
    IsJudged(s, worst, c, n);
  }

  lemma OrSafe(ds: seq<T.Expr>, cs: seq<Cond>)
    ensures T.Safe(T.AnyOf(ds)) <==> forall k | 0 <= k < |ds| :: T.Safe(ds[k])
    ensures SafeByCost(Any(cs)) <==> forall k | 0 <= k < |cs| :: SafeByCost(cs[k])
  {
  }

  // ---- The condition -------------------------------------------------------------------------------------------------

  /** The root of a rule's plan. */
  lemma RootJudges(s: Setup, worst: bool, c: Cond)
    requires s.Ok() && s.adaptive && s.program == ProgramOf(c) && AllInOrder(s, worst)
    ensures SafeByCost(c) ==> SafePlan(s.plan, s.adaptive)
    ensures worst && SafePlan(s.plan, s.adaptive) ==> SafeByCost(c)
  {
    hide Emit, SafeByCost, T.Safe, Setup.IsNode, E.WellFormed, AllInOrder;
    WholePlaced(s, c);
    PlanJudges(s, worst, c, 0);
  }

  /** Children sorted by cost are in order. */
  lemma SortedInOrder(s: Setup)
    requires s.Ok() && s.adaptive && CostOrdered(s.plan.nodes, s.pool)
    ensures AllInOrder(s, false)
  {
    hide ExprCost, Setup.IsNode;
    forall n: nat | n < |s.plan.nodes| && s.plan.nodes[n].And? && E.Below(E.Chosen(s.plan.nodes[n], s.adaptive), |s.plan.nodes|)
      ensures InOrder(s, false, E.Chosen(s.plan.nodes[n], s.adaptive))
    {
      var chosen := E.Chosen(s.plan.nodes[n], s.adaptive);
      assert SortedBy(chosen, CostLess(s.plan.nodes, s.pool));
      forall i, j | 0 <= i < j < |chosen| ensures !Precedes(s, false, chosen[j], chosen[i]) {
        assert !CostLess(s.plan.nodes, s.pool)(chosen[j], chosen[i]);
      }
    }
  }

  // ---- The worst order -------------------------------------------------------------------------------------------------

  /** Cheaper nodes first, and among equals those without a nested AND. */
  ghost function Rank(s: Setup, n: nat): nat
    requires E.WellFormed(s.plan, s.adaptive)
  {
    if n >= |s.plan.nodes| then 0
    else 2 * ExprCost(s.plan.nodes, s.pool, n) + if T.NoSparse(E.Decode(s.plan, s.adaptive, n)) then 0 else 1
  }

  ghost function WorstLess(s: Setup): (nat, nat) -> bool
    requires E.WellFormed(s.plan, s.adaptive)
  {
    (a: nat, b: nat) => Rank(s, a) < Rank(s, b)
  }

  ghost function WorstNode(s: Setup, node: E.Node): E.Node
    requires E.WellFormed(s.plan, s.adaptive)
  {
    if node.And? then E.And(Sorted(node.children, WorstLess(s)), node.original) else node
  }

  /** The same plan with the children of every AND in the worst order that sorting by cost allows. */
  ghost function Worst(s: Setup): (t: Setup)
    requires E.WellFormed(s.plan, s.adaptive)
    ensures |t.plan.nodes| == |s.plan.nodes|
  {
    s.(plan := E.Plan(seq(|s.plan.nodes|, n requires 0 <= n < |s.plan.nodes| => WorstNode(s, s.plan.nodes[n])), s.plan.root))
  }

  lemma WorstWellFormed(s: Setup)
    requires E.WellFormed(s.plan, s.adaptive) && s.adaptive
    ensures E.WellFormed(Worst(s).plan, s.adaptive)
    ensures forall n: nat | n < |s.plan.nodes| ::
              multiset(E.Chosen(Worst(s).plan.nodes[n], s.adaptive)) == multiset(E.Chosen(s.plan.nodes[n], s.adaptive))
    ensures forall n: nat, x: nat | n < |s.plan.nodes| ::
              x in E.Chosen(Worst(s).plan.nodes[n], s.adaptive) <==> x in E.Chosen(s.plan.nodes[n], s.adaptive)
  {
    var t := Worst(s);
    forall n: nat | n < |s.plan.nodes|
      ensures multiset(E.Chosen(t.plan.nodes[n], s.adaptive)) == multiset(E.Chosen(s.plan.nodes[n], s.adaptive))
      ensures forall x: nat :: x in E.Chosen(t.plan.nodes[n], s.adaptive) <==> x in E.Chosen(s.plan.nodes[n], s.adaptive)
      ensures E.Below(E.Chosen(t.plan.nodes[n], s.adaptive), n)
    {
      var xs, ys := E.Chosen(t.plan.nodes[n], s.adaptive), E.Chosen(s.plan.nodes[n], s.adaptive);
      assert t.plan.nodes[n] == WorstNode(s, s.plan.nodes[n]);
      assert multiset(xs) == multiset(ys);
      forall x: nat ensures x in xs <==> x in ys { assert x in multiset(xs) <==> x in multiset(ys); }
      forall k | 0 <= k < |xs| ensures xs[k] < n { assert xs[k] in ys; }
    }
    forall n, k | 0 <= n < |t.plan.nodes| && 0 <= k < |E.Chosen(t.plan.nodes[n], s.adaptive)|
      ensures E.Chosen(t.plan.nodes[n], s.adaptive)[k] < n
    {
      assert E.Below(E.Chosen(t.plan.nodes[n], s.adaptive), n);
    }
  }

  lemma {:induction false} WorstCost(s: Setup, n: nat)
    requires E.WellFormed(s.plan, s.adaptive) && s.adaptive && n < |s.plan.nodes|
    ensures ExprCost(Worst(s).plan.nodes, s.pool, n) == ExprCost(s.plan.nodes, s.pool, n)
    decreases n
  {
    var t := Worst(s);
    var node := s.plan.nodes[n];
    assert t.plan.nodes[n] == WorstNode(s, node);
    if !node.Pred? {
      var xs, ys := E.Chosen(t.plan.nodes[n], s.adaptive), E.Chosen(node, s.adaptive);
      WorstWellFormed(s);
      var cost := if node.Not? then 6 else 5;
      assert ExprCost(t.plan.nodes, s.pool, n) == CostAll(t.plan.nodes, s.pool, n, xs, cost);
      assert ExprCost(s.plan.nodes, s.pool, n) == CostAll(s.plan.nodes, s.pool, n, ys, cost);
      forall x: nat | x in ys ensures ExprCost(t.plan.nodes, s.pool, x) == ExprCost(s.plan.nodes, s.pool, x) {
        WorstCost(s, x);
      }
      hide ExprCost, CostAll, Worst;
      CostAllLeast(t.plan.nodes, s.pool, n, xs, cost);
      CostAllLeast(s.plan.nodes, s.pool, n, ys, cost);
      SameCosts(t.plan.nodes, s.pool, xs, ys);
      assert NodeCosts(t.plan.nodes, s.pool, ys) == NodeCosts(s.plan.nodes, s.pool, ys);
      LeastIsOne(CostAll(t.plan.nodes, s.pool, n, xs, cost), CostAll(s.plan.nodes, s.pool, n, ys, cost),
                 NodeCosts(t.plan.nodes, s.pool, xs), NodeCosts(s.plan.nodes, s.pool, ys), cost);
    }
  }

  /** Node x holds a nested AND in both plans or in neither. */
  ghost predicate Alike(s: Setup, t: Setup, x: nat)
    requires E.WellFormed(s.plan, s.adaptive) && E.WellFormed(t.plan, t.adaptive)
  {
    && x < |s.plan.nodes| == |t.plan.nodes|
    && (T.NoSparse(E.Decode(t.plan, t.adaptive, x)) <==> T.NoSparse(E.Decode(s.plan, s.adaptive, x)))
  }

  lemma {:induction false} WorstPlain(s: Setup, n: nat)
    requires E.WellFormed(s.plan, s.adaptive) && s.adaptive && n < |s.plan.nodes|
    ensures E.WellFormed(Worst(s).plan, s.adaptive) && Alike(s, Worst(s), n)
    decreases n
  {
    var t := Worst(s);
    WorstWellFormed(s);
    var node := s.plan.nodes[n];
    assert t.plan.nodes[n] == WorstNode(s, node);
    hide E.WellFormed, Alike, Sorted, Rank, Worst;
    var xs, ys := E.Chosen(t.plan.nodes[n], s.adaptive), E.Chosen(node, s.adaptive);
    ChosenBelow(s, n);
    ChosenBelow(t, n);
    forall x: nat | x in ys ensures Alike(s, t, x) { WorstPlain(s, x); }
    assert |multiset(xs)| == |xs| && |multiset(ys)| == |ys|;
    AlikeNode(s, t, n, xs, ys);
  }

  lemma ChosenBelow(s: Setup, n: nat)
    requires E.WellFormed(s.plan, s.adaptive) && n < |s.plan.nodes|
    ensures E.Below(E.Chosen(s.plan.nodes[n], s.adaptive), n)
    ensures forall x: nat | x in E.Chosen(s.plan.nodes[n], s.adaptive) :: x < n
  {
  }

  /** Nodes of the same kind over the same children in some order. */
  lemma AlikeNode(s: Setup, t: Setup, n: nat, xs: seq<nat>, ys: seq<nat>)
    requires E.WellFormed(s.plan, s.adaptive) && E.WellFormed(t.plan, t.adaptive) && n < |s.plan.nodes| == |t.plan.nodes|
    requires xs == E.Chosen(t.plan.nodes[n], t.adaptive) && ys == E.Chosen(s.plan.nodes[n], s.adaptive)
    requires E.Below(xs, n) && E.Below(ys, n) && |xs| == |ys| && (forall x: nat :: x in xs <==> x in ys)
    requires forall x: nat | x in ys :: Alike(s, t, x)
    requires t.plan.nodes[n] == s.plan.nodes[n] || (t.plan.nodes[n].And? && s.plan.nodes[n].And?)
    ensures Alike(s, t, n)
  {
    hide E.WellFormed;
    if s.plan.nodes[n].Not? {
      hide *;
      NotAlike(s, t, n);
    } else if !s.plan.nodes[n].Pred? {
      PlainAmong(s, t, n, xs, ys);
    }
  }

  lemma NotAlike(s: Setup, t: Setup, n: nat)
    requires E.WellFormed(s.plan, s.adaptive) && E.WellFormed(t.plan, t.adaptive) && n < |s.plan.nodes| == |t.plan.nodes|
    requires s.plan.nodes[n].Not? && t.plan.nodes[n] == s.plan.nodes[n]
    requires forall x: nat | x in E.Chosen(s.plan.nodes[n], s.adaptive) :: Alike(s, t, x)
    ensures Alike(s, t, n)
  {
    assert E.Chosen(s.plan.nodes[n], s.adaptive)[0] == s.plan.nodes[n].child;
    assert E.Chosen(t.plan.nodes[n], t.adaptive)[0] == t.plan.nodes[n].child;
    assert Alike(s, t, s.plan.nodes[n].child);
  }

  lemma PlainAmong(s: Setup, t: Setup, n: nat, xs: seq<nat>, ys: seq<nat>)
    requires E.WellFormed(s.plan, s.adaptive) && E.WellFormed(t.plan, t.adaptive) && n < |s.plan.nodes| == |t.plan.nodes|
    requires E.Below(xs, n) && E.Below(ys, n) && forall x: nat :: x in xs <==> x in ys
    requires forall x: nat | x in ys :: Alike(s, t, x)
    ensures var ds, es := E.DecodeAll(t.plan, t.adaptive, n, xs), E.DecodeAll(s.plan, s.adaptive, n, ys);
            AllPlain(ds) <==> AllPlain(es)
  {
    hide AllPlain, E.Decode, E.DecodeAll, E.WellFormed, E.Below, T.NoSparse, Alike, Echoes;
    var ds, es := E.DecodeAll(t.plan, t.adaptive, n, xs), E.DecodeAll(s.plan, s.adaptive, n, ys);
    forall k | 0 <= k < |es| ensures Echoes(es[k], ds) {
      assert ys[k] in ys;
      var l :| 0 <= l < |xs| && xs[l] == ys[k];
      AlikeVerdict(s, t, ys[k]);
      EchoesAt(es[k], ds, l);
    }
    forall k | 0 <= k < |ds| ensures Echoes(ds[k], es) {
      assert xs[k] in xs;
      var l :| 0 <= l < |ys| && ys[l] == xs[k];
      AlikeVerdict(s, t, xs[k]);
      EchoesAt(ds[k], es, l);
    }
    SameVerdict(ds, es);
  }

  predicate AllPlain(ds: seq<T.Expr>) {
    forall k | 0 <= k < |ds| :: T.NoSparse(ds[k])
  }

  ghost predicate Echoes(e: T.Expr, ds: seq<T.Expr>) {
    exists l :: 0 <= l < |ds| && T.NoSparse(ds[l]) == T.NoSparse(e)
  }

  lemma EchoesAt(e: T.Expr, ds: seq<T.Expr>, l: nat)
    requires l < |ds| && T.NoSparse(ds[l]) == T.NoSparse(e)
    ensures Echoes(e, ds)
  {
  }

  lemma AlikeVerdict(s: Setup, t: Setup, x: nat)
    requires E.WellFormed(s.plan, s.adaptive) && E.WellFormed(t.plan, t.adaptive) && Alike(s, t, x)
    ensures x < |s.plan.nodes| == |t.plan.nodes|
    ensures T.NoSparse(E.Decode(t.plan, t.adaptive, x)) == T.NoSparse(E.Decode(s.plan, s.adaptive, x))
  {
  }

  lemma SameVerdict(ds: seq<T.Expr>, es: seq<T.Expr>)
    requires forall k | 0 <= k < |es| :: Echoes(es[k], ds)
    requires forall k | 0 <= k < |ds| :: Echoes(ds[k], es)
    ensures AllPlain(ds) <==> AllPlain(es)
  {
    hide T.NoSparse;
    forall k | 0 <= k < |es| && forall j | 0 <= j < |ds| :: T.NoSparse(ds[j]) ensures T.NoSparse(es[k]) { assert Echoes(es[k], ds); }
    forall k | 0 <= k < |ds| && forall j | 0 <= j < |es| :: T.NoSparse(es[j]) ensures T.NoSparse(ds[k]) { assert Echoes(ds[k], es); }
  }

  lemma WorstInOrder(s: Setup)
    requires E.WellFormed(s.plan, s.adaptive) && s.adaptive
    ensures E.WellFormed(Worst(s).plan, s.adaptive) && AllInOrder(Worst(s), true)
    ensures CostOrdered(Worst(s).plan.nodes, s.pool)
  {
    var t := Worst(s);
    WorstWellFormed(s);
    forall n: nat | n < |t.plan.nodes| && t.plan.nodes[n].And? ensures SortedBy(t.plan.nodes[n].children, WorstLess(s)) {
      assert t.plan.nodes[n] == WorstNode(s, s.plan.nodes[n]);
      SortedIsSorted(s.plan.nodes[n].children, WorstLess(s));
    }
    hide Worst, T.NoSparse, ExprCost, E.Decode;
    forall n: nat | n < |t.plan.nodes| && t.plan.nodes[n].And?
      ensures E.Below(t.plan.nodes[n].children, n) && E.Chosen(t.plan.nodes[n], s.adaptive) == t.plan.nodes[n].children
      ensures InOrder(t, true, t.plan.nodes[n].children) && SortedBy(t.plan.nodes[n].children, CostLess(t.plan.nodes, s.pool))
    {
      var xs := t.plan.nodes[n].children;
      assert E.Below(E.Chosen(t.plan.nodes[n], s.adaptive), n);
      forall i, j | 0 <= i < j < |xs|
        ensures !Precedes(t, true, xs[j], xs[i]) && !CostLess(t.plan.nodes, s.pool)(xs[j], xs[i])
      {
        assert !WorstLess(s)(xs[j], xs[i]);
        WorstCost(s, xs[i]);
        WorstCost(s, xs[j]);
        WorstPlain(s, xs[i]);
        WorstPlain(s, xs[j]);
      }
    }
  }

  lemma WorstIsOk(s: Setup)
    requires s.Ok() && s.adaptive
    ensures Worst(s).Ok()
  {
    WorstWellFormed(s);
    var t := Worst(s);
    forall n: nat | n < |t.plan.nodes| ensures t.IsNode(t.plan.nodes[n], t.program.ops[n], n) {
      assert s.IsNode(s.plan.nodes[n], s.program.ops[n], n);
      assert t.plan.nodes[n] == WorstNode(s, s.plan.nodes[n]);
    }
  }

  lemma WorstIsPlan(s: Setup)
    requires E.WellFormed(s.plan, s.adaptive) && s.adaptive && PlanFor(s.plan, s.program, s.pool)
    ensures PlanFor(Worst(s).plan, s.program, s.pool)
  {
    var t := Worst(s);
    WorstInOrder(s);
    hide CostOrdered, AllInOrder;
    forall n | 0 <= n < |t.plan.nodes| ensures NodeFor(t.plan.nodes[n], s.program.ops[n], s.pool) {
      assert NodeFor(s.plan.nodes[n], s.program.ops[n], s.pool);
      assert t.plan.nodes[n] == WorstNode(s, s.plan.nodes[n]);
    }
  }

  /** With the children of ANDs sorted by cost, a rule is safe under every order that the sort may leave among equals
      exactly when each nested AND is in the one cheapest child. */
  lemma CostShapeIff(cs: seq<Cond>, k: Compiled, r: nat)
    requires Planned(cs, k) && r < |cs| && forall q | 0 <= q < |cs| :: CleanRule(cs[q])
    ensures SafeByCost(cs[r]) <==> forall other: Compiled | Planned(cs, other) :: SafePlan(other.plans[r], true)
  {
    hide Emit, Setup.Ok, SafePlan, SafeByCost, PlanFor, PoolOf, CleanRule;
    if SafeByCost(cs[r]) {
      forall other: Compiled | Planned(cs, other) ensures SafePlan(other.plans[r], true) {
        SafeByCostHolds(cs, other, r);
      }
    } else {
      var w: World := World(_ => 0.0, x => x, (_, _) => -1, (_, _) => false, (_, _) => false, (_, _) => false);
      var s := Setup(w, k.plans[r], true, ProgramOf(cs[r]), k.pool, []);
      PlannedIsOk(cs, k, r, w, true, []);
      WellFormedPlan(s);
      var t := Worst(s);
      WorstIsOk(s);
      WorstInOrder(s);
      WorstIsPlan(s);
      RootJudges(t, true, cs[r]);
      var other := k.(plans := k.plans[r := t.plan]);
      assert Planned(cs, other);
      assert !SafePlan(other.plans[r], true);
    }
  }

  lemma SafeByCostHolds(cs: seq<Cond>, k: Compiled, r: nat)
    requires Planned(cs, k) && r < |cs| && (forall q | 0 <= q < |cs| :: CleanRule(cs[q])) && SafeByCost(cs[r])
    ensures SafePlan(k.plans[r], true)
  {
    hide Emit, SafePlan, SafeByCost, PoolOf, CleanRule, NodesFor, CostOrdered, Setup.Ok;
    var w: World := World(_ => 0.0, x => x, (_, _) => -1, (_, _) => false, (_, _) => false, (_, _) => false);
    var s := Setup(w, k.plans[r], true, ProgramOf(cs[r]), k.pool, []);
    PlannedIsOk(cs, k, r, w, true, []);
    WellFormedPlan(s);
    assert PlanFor(k.plans[r], ProgramOf(cs[r]), k.pool);
    SortedInOrder(s);
    RootJudges(s, false, cs[r]);
  }
}
