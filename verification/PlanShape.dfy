/** Which rules are evaluated exactly, read off the condition tree before anything is compiled. */
module PlanShape {
  import opened RuleCompiler
  import opened Predicates
  import opened GlobalPlan
  import opened RulePipeline
  import E = EvalPlan
  import T = EvalTree
  import X = EvalExactness

  /** No AND of two or more children anywhere in the rule. */
  predicate Plain(c: Cond) {
    match c
    case Test(_) => true
    case Derived(_) => true
    case All(cs) => |cs| <= 1 && forall k | 0 <= k < |cs| :: Plain(cs[k])
    case Any(cs) => forall k | 0 <= k < |cs| :: Plain(cs[k])
    case Neg(d) => Plain(d)
  }

  /** No such AND inside another one: safe in whatever order children are evaluated. */
  predicate Settled(c: Cond) {
    match c
    case Test(_) => true
    case Derived(_) => true
    case All(cs) => (forall k | 0 <= k < |cs| :: Settled(cs[k])) && (|cs| >= 2 ==> forall k | 0 <= k < |cs| :: Plain(cs[k]))
    case Any(cs) => forall k | 0 <= k < |cs| :: Settled(cs[k])
    case Neg(d) => Settled(d)
  }

  /** No such AND inside a child of an AND other than the first, in the order the rule was written. */
  predicate SafeInOrder(c: Cond) {
    match c
    case Test(_) => true
    case Derived(_) => true
    case All(cs) => (forall k | 0 <= k < |cs| :: SafeInOrder(cs[k])) && (forall k | 1 <= k < |cs| :: Plain(cs[k]))
    case Any(cs) => forall k | 0 <= k < |cs| :: SafeInOrder(cs[k])
    case Neg(d) => SafeInOrder(d)
  }

  /** Every AND and OR of the rule has a child. */
  predicate Filled(c: Cond) {
    match c
    case Test(_) => true
    case Derived(_) => true
    case All(cs) => cs != [] && forall k | 0 <= k < |cs| :: Filled(cs[k])
    case Any(cs) => cs != [] && forall k | 0 <= k < |cs| :: Filled(cs[k])
    case Neg(d) => Filled(d)
  }

  /** The expression has the shape of the condition; `ordered`: children in the order they were written. */
  ghost predicate Shapes(e: T.Expr, c: Cond, ordered: bool) {
    && (T.NoSparse(e) <==> Plain(c))
    && (Settled(c) ==> T.Safe(e))
    && (Filled(c) ==> X.NonEmpty(e))
    && (ordered ==> (T.Safe(e) <==> SafeInOrder(c)))
  }

  ghost predicate SomeCond(d: T.Expr, cs: seq<Cond>, ordered: bool) {
    exists j :: 0 <= j < |cs| && Shapes(d, cs[j], ordered)
  }

  ghost predicate SomeExpr(ds: seq<T.Expr>, c: Cond, ordered: bool) {
    exists k :: 0 <= k < |ds| && Shapes(ds[k], c, ordered)
  }

  /** The children's expressions in evaluation order. */
  ghost predicate ShapesSome(ds: seq<T.Expr>, cs: seq<Cond>, ordered: bool) {
    && |ds| == |cs|
    && (forall k | 0 <= k < |ds| :: SomeCond(ds[k], cs, ordered))
    && (forall j | 0 <= j < |cs| :: SomeExpr(ds, cs[j], ordered))
    && (ordered ==> forall k | 0 <= k < |ds| :: Shapes(ds[k], cs[k], ordered))
  }

  lemma CondOf(ds: seq<T.Expr>, cs: seq<Cond>, ordered: bool, k: nat) returns (j: nat)
    requires ShapesSome(ds, cs, ordered) && k < |ds|
    ensures j < |cs| && Shapes(ds[k], cs[j], ordered)
  {
    hide Shapes;
    assert SomeCond(ds[k], cs, ordered);
    j :| 0 <= j < |cs| && Shapes(ds[k], cs[j], ordered);
  }

  lemma ExprOf(ds: seq<T.Expr>, cs: seq<Cond>, ordered: bool, j: nat) returns (k: nat)
    requires ShapesSome(ds, cs, ordered) && j < |cs|
    ensures k < |ds| && Shapes(ds[k], cs[j], ordered)
  {
    hide Shapes;
    assert SomeExpr(ds, cs[j], ordered);
    k :| 0 <= k < |ds| && Shapes(ds[k], cs[j], ordered);
  }

  /** What the children's shapes say of all of them together. */
  ghost predicate Agree(ds: seq<T.Expr>, cs: seq<Cond>, ordered: bool) {
    && |ds| == |cs|
    && ((forall k | 0 <= k < |ds| :: T.NoSparse(ds[k])) <==> forall k | 0 <= k < |cs| :: Plain(cs[k]))
    && ((forall k | 0 <= k < |cs| :: Settled(cs[k])) ==> forall k | 0 <= k < |ds| :: T.Safe(ds[k]))
    && ((forall k | 0 <= k < |cs| :: Filled(cs[k])) ==> forall k | 0 <= k < |ds| :: X.NonEmpty(ds[k]))
    && (ordered ==> forall k | 0 <= k < |ds| :: (T.NoSparse(ds[k]) <==> Plain(cs[k])) && (T.Safe(ds[k]) <==> SafeInOrder(cs[k])))
  }

  lemma SomeAgree(ds: seq<T.Expr>, cs: seq<Cond>, ordered: bool)
    requires ShapesSome(ds, cs, ordered)
    ensures Agree(ds, cs, ordered)
  {
    hide ShapesSome, T.NoSparse, T.Safe, X.NonEmpty, Plain, Settled, Filled, SafeInOrder;
    OrderedShapes(ds, cs, ordered);
    if forall k | 0 <= k < |ds| :: T.NoSparse(ds[k]) {
      forall j: nat | j < |cs| ensures Plain(cs[j]) {
        var k := ExprOf(ds, cs, ordered, j);
      }
    }
    if forall k | 0 <= k < |cs| :: Plain(cs[k]) {
      forall k: nat | k < |ds| ensures T.NoSparse(ds[k]) {
        var j := CondOf(ds, cs, ordered, k);
      }
    }
    if forall k | 0 <= k < |cs| :: Settled(cs[k]) {
      forall k: nat | k < |ds| ensures T.Safe(ds[k]) {
        var j := CondOf(ds, cs, ordered, k);
      }
    }
    if forall k | 0 <= k < |cs| :: Filled(cs[k]) {
      forall k: nat | k < |ds| ensures X.NonEmpty(ds[k]) {
        var j := CondOf(ds, cs, ordered, k);
      }
    }
  }

  lemma OrderedShapes(ds: seq<T.Expr>, cs: seq<Cond>, ordered: bool)
    requires ShapesSome(ds, cs, ordered)
    ensures |ds| == |cs| && (ordered ==> forall k | 0 <= k < |ds| :: Shapes(ds[k], cs[k], ordered))
  {
  }

  lemma ConnectivesShape(ds: seq<T.Expr>, cs: seq<Cond>, ordered: bool)
    requires Agree(ds, cs, ordered)
    ensures Shapes(T.AllOf(ds), All(cs), ordered) && Shapes(T.AnyOf(ds), Any(cs), ordered)
  {
    hide *;
    AndShapes(ds, cs, ordered);
    OrShapes(ds, cs, ordered);
  }

  lemma AndShapes(ds: seq<T.Expr>, cs: seq<Cond>, ordered: bool)
    requires Agree(ds, cs, ordered)
    ensures Shapes(T.AllOf(ds), All(cs), ordered)
  {
  }

  lemma OrShapes(ds: seq<T.Expr>, cs: seq<Cond>, ordered: bool)
    requires Agree(ds, cs, ordered)
    ensures Shapes(T.AnyOf(ds), Any(cs), ordered)
  {
  }

  /** Node r of the plan has the shape of the condition. */
  ghost predicate Mirrors(s: Setup, c: Cond, r: nat) {
    && E.WellFormed(s.plan, s.adaptive) && r < |s.plan.nodes|
    && Shapes(E.Decode(s.plan, s.adaptive, r), c, !s.adaptive)
  }

  ghost predicate MirrorsAll(s: Setup, cs: seq<Cond>, rs: seq<nat>) {
    |rs| == |cs| && forall k | 0 <= k < |cs| :: Mirrors(s, cs[k], rs[k])
  }

  lemma {:induction false} PlanMirrors(s: Setup, c: Cond, base: nat)
    requires s.Ok() && Placed(c, base, s.program.ops)
    ensures Mirrors(s, c, Root(c, base))
    decreases c, 1
  {
    match c
    case Test(p) => LeafMirrors(s, c, PredOp(p, base), base);
    case Derived(p) => LeafMirrors(s, c, PredOp(p, base), base);
    case All(cs) =>
      PlacedConnective(c, cs, base, s.program.ops);
      PlanMirrorsAll(s, cs, base);
      ConnectiveMirrors(s, c, cs, Root(c, base), Roots(cs, base));
    case Any(cs) =>
      PlacedConnective(c, cs, base, s.program.ops);
      PlanMirrorsAll(s, cs, base);
      ConnectiveMirrors(s, c, cs, Root(c, base), Roots(cs, base));
    case Neg(d) =>
      if d.Test? && Flips(d.p) {
        LeafMirrors(s, c, PredOp(Invert(d.p), base), base);
      } else {
        PlacedNegation(d, base, s.program.ops);
        PlanMirrors(s, d, base);
        NegationMirrors(s, d, Root(d, base), Root(c, base));
      }
  }

  lemma {:induction false} PlanMirrorsAll(s: Setup, cs: seq<Cond>, base: nat)
    requires s.Ok() && PlacedAll(cs, base, s.program.ops)
    ensures MirrorsAll(s, cs, Roots(cs, base))
    decreases cs, 0
  {
    if cs != [] {
      var mid := base + |Emit(cs[0], base)|;
      assert Root(cs[0], base) == mid - 1;
      hide *;
      PlacedFirst(cs, base, s.program.ops);
      EmitAllStep(cs, base);
      PlanMirrors(s, cs[0], base);
      PlanMirrorsAll(s, cs[1..], mid);
      MirrorsCons(s, cs, mid - 1, Roots(cs[1..], mid));
    }
  }

  lemma MirrorsCons(s: Setup, cs: seq<Cond>, r: nat, rest: seq<nat>)
    requires cs != [] && Mirrors(s, cs[0], r) && MirrorsAll(s, cs[1..], rest)
    ensures MirrorsAll(s, cs, [r] + rest)
  {
    hide Mirrors;
    forall k | 0 <= k < |cs| ensures Mirrors(s, cs[k], ([r] + rest)[k]) {
      assert k > 0 ==> Mirrors(s, cs[1..][k - 1], rest[k - 1]);
    }
  }

  lemma LeafMirrors(s: Setup, c: Cond, op: Op, base: nat)
    requires s.Ok() && Placed(c, base, s.program.ops)
    requires Emit(c, base) == [op] && op.PredOp? && (c.Test? || c.Derived? || (c.Neg? && c.c.Test?))
    ensures Mirrors(s, c, Root(c, base))
  {
    hide *;
    PlacedParts(c, base, s.program.ops, [], op);
    WellFormedPlan(s);
    LeafDecodes(s, Root(c, base), op);
    LeafShapes(E.Decode(s.plan, s.adaptive, Root(c, base)), c, !s.adaptive);
    MirrorsNode(s, c, Root(c, base));
  }

  lemma LeafDecodes(s: Setup, n: nat, op: Op)
    requires s.Ok() && n < |s.program.ops| && s.program.ops[n] == op && op.PredOp?
    ensures n < |s.plan.nodes| && E.Decode(s.plan, s.adaptive, n).Leaf?
  {
    assert s.IsNode(s.plan.nodes[n], s.program.ops[n], n);
  }

  lemma LeafShapes(e: T.Expr, c: Cond, ordered: bool)
    requires e.Leaf? && (c.Test? || c.Derived? || (c.Neg? && c.c.Test?))
    ensures Shapes(e, c, ordered)
  {
  }

  lemma NegationMirrors(s: Setup, d: Cond, child: nat, n: nat)
    requires s.Ok() && n < |s.plan.nodes| && s.program.ops[n] == NotOp(child, n) && Mirrors(s, d, child)
    ensures Mirrors(s, Neg(d), n)
  {
    assert s.IsNode(s.plan.nodes[n], s.program.ops[n], n);
  }

  /** Whatever the order of evaluation, the children are those of the condition. */
  lemma ConnectiveMirrors(s: Setup, c: Cond, cs: seq<Cond>, n: nat, rs: seq<nat>)
    requires s.Ok() && n < |s.plan.nodes| && Inputs(s.program.ops[n]) == rs && MirrorsAll(s, cs, rs)
    requires (c == All(cs) && s.program.ops[n].AndOp?) || (c == Any(cs) && s.program.ops[n].OrOp?)
    ensures Mirrors(s, c, n)
  {
    hide *;
    WellFormedPlan(s);
    ChildrenInOrder(s, n);
    var chosen := E.Chosen(s.plan.nodes[n], s.adaptive);
    var ds := E.DecodeAll(s.plan, s.adaptive, n, chosen);
    ChildrenMirror(s, cs, rs, n);
    DecodeConnective(s, n);
    SomeAgree(ds, cs, !s.adaptive);
    ConnectivesShape(ds, cs, !s.adaptive);
    MirrorsNode(s, c, n);
  }

  lemma MirrorsNode(s: Setup, c: Cond, n: nat)
    requires E.WellFormed(s.plan, s.adaptive) && n < |s.plan.nodes|
    requires Shapes(E.Decode(s.plan, s.adaptive, n), c, !s.adaptive)
    ensures Mirrors(s, c, n)
  {
  }

  lemma ChildrenInOrder(s: Setup, n: nat)
    requires s.Ok() && n < |s.plan.nodes| && !s.program.ops[n].PredOp?
    ensures E.WellFormed(s.plan, s.adaptive) && E.Below(E.Chosen(s.plan.nodes[n], s.adaptive), n)
    ensures !s.adaptive ==> E.Chosen(s.plan.nodes[n], s.adaptive) == Inputs(s.program.ops[n])
    ensures s.program.ops[n].AndOp? ==> s.plan.nodes[n].And?
    ensures s.program.ops[n].OrOp? ==> s.plan.nodes[n].Or?
  {
    assert s.IsNode(s.plan.nodes[n], s.program.ops[n], n);
    ChosenInputs(s, n);
    ConnectiveKind(s, n);
  }

  lemma DecodeConnective(s: Setup, n: nat)
    requires E.WellFormed(s.plan, s.adaptive) && n < |s.plan.nodes| && E.Below(E.Chosen(s.plan.nodes[n], s.adaptive), n)
    ensures var ds := E.DecodeAll(s.plan, s.adaptive, n, E.Chosen(s.plan.nodes[n], s.adaptive));
            && (s.plan.nodes[n].And? ==> E.Decode(s.plan, s.adaptive, n) == T.AllOf(ds))
            && (s.plan.nodes[n].Or? ==> E.Decode(s.plan, s.adaptive, n) == T.AnyOf(ds))
  {
  }

  lemma ChildrenMirror(s: Setup, cs: seq<Cond>, rs: seq<nat>, n: nat)
    requires s.Ok() && n < |s.plan.nodes| && !s.program.ops[n].PredOp? && Inputs(s.program.ops[n]) == rs
    requires MirrorsAll(s, cs, rs) && E.WellFormed(s.plan, s.adaptive) && E.Below(E.Chosen(s.plan.nodes[n], s.adaptive), n)
    ensures ShapesSome(E.DecodeAll(s.plan, s.adaptive, n, E.Chosen(s.plan.nodes[n], s.adaptive)), cs, !s.adaptive)
  {
    hide Shapes, Setup.Ok, Setup.IsNode, E.Decode, E.DecodeAll, E.WellFormed, E.Chosen, Inputs;
    ChosenMembers(s, n);
    ChildrenInOrder(s, n);
    var chosen := E.Chosen(s.plan.nodes[n], s.adaptive);
    Rearranged(s, cs, rs, chosen, E.DecodeAll(s.plan, s.adaptive, n, chosen));
  }

  lemma Rearranged(s: Setup, cs: seq<Cond>, rs: seq<nat>, chosen: seq<nat>, ds: seq<T.Expr>)
    requires MirrorsAll(s, cs, rs) && E.WellFormed(s.plan, s.adaptive) && E.Below(chosen, |s.plan.nodes|)
    requires |ds| == |chosen| == |rs| && forall k | 0 <= k < |ds| :: ds[k] == E.Decode(s.plan, s.adaptive, chosen[k])
    requires forall x: nat :: x in chosen <==> x in rs
    requires !s.adaptive ==> chosen == rs
    ensures ShapesSome(ds, cs, !s.adaptive)
  {
    hide Shapes, E.Decode, E.WellFormed, SomeCond, SomeExpr;
    forall k: nat | k < |ds| ensures SomeCond(ds[k], cs, !s.adaptive) {
      assert chosen[k] in rs;
      var j :| 0 <= j < |rs| && rs[j] == chosen[k];
      IsSome(s, cs, rs, ds, j, k);
    }
    forall j: nat | j < |cs| ensures SomeExpr(ds, cs[j], !s.adaptive) {
      assert rs[j] in chosen;
      var k :| 0 <= k < |chosen| && chosen[k] == rs[j];
      IsSome(s, cs, rs, ds, j, k);
    }
    forall k | 0 <= k < |ds| && !s.adaptive ensures Shapes(ds[k], cs[k], !s.adaptive) {
      IsSome(s, cs, rs, ds, k, k);
    }
  }

  lemma IsSome(s: Setup, cs: seq<Cond>, rs: seq<nat>, ds: seq<T.Expr>, j: nat, k: nat)
    requires MirrorsAll(s, cs, rs) && E.WellFormed(s.plan, s.adaptive)
    requires j < |cs| && k < |ds| && rs[j] < |s.plan.nodes| && ds[k] == E.Decode(s.plan, s.adaptive, rs[j])
    ensures Shapes(ds[k], cs[j], !s.adaptive) && SomeCond(ds[k], cs, !s.adaptive) && SomeExpr(ds, cs[j], !s.adaptive)
  {
    hide Shapes, E.Decode, E.WellFormed;
    assert Mirrors(s, cs[j], rs[j]);
  }

  /** A rule without nested ANDs has a safe plan under every order of evaluation; a rule evaluated in its
      written order has a safe plan exactly when no later child of an AND holds one. */
  lemma RuleShape(s: Setup, c: Cond)
    requires s.Ok() && s.program == Program(Emit(c, 0), |Emit(c, 0)| - 1)
    ensures Settled(c) ==> T.Safe(E.Decode(s.plan, s.adaptive, s.plan.root))
    ensures !s.adaptive ==> (T.Safe(E.Decode(s.plan, s.adaptive, s.plan.root)) <==> SafeInOrder(c))
    ensures Filled(c) ==> X.NonEmpty(E.Decode(s.plan, s.adaptive, s.plan.root))
  {
    hide *;
    WholePlaced(s, c);
    PlanMirrors(s, c, 0);
    MirrorsSays(s, c, s.plan.root);
  }

  /** An AND of nested ANDs alone is unsafe in every order. */
  lemma NestedEverywhere(s: Setup, cs: seq<Cond>)
    requires s.Ok() && s.program == Program(Emit(All(cs), 0), |Emit(All(cs), 0)| - 1)
    requires |cs| >= 2 && forall k | 0 <= k < |cs| :: !Plain(cs[k])
    ensures !T.Safe(E.Decode(s.plan, s.adaptive, s.plan.root))
  {
    hide *;
    var c, n := All(cs), s.plan.root;
    var rs := Roots(cs, 0);
    WholePlaced(s, c);
    PlacedConnective(c, cs, 0, s.program.ops);
    PlanMirrorsAll(s, cs, 0);
    RootIs(s, c, cs);
    WellFormedPlan(s);
    ChildrenInOrder(s, n);
    ChildrenMirror(s, cs, rs, n);
    DecodeConnective(s, n);
    ManySparse(E.DecodeAll(s.plan, s.adaptive, n, E.Chosen(s.plan.nodes[n], s.adaptive)), cs, !s.adaptive);
  }

  lemma RootIs(s: Setup, c: Cond, cs: seq<Cond>)
    requires c == All(cs) && Placed(c, 0, s.program.ops) && Root(c, 0) == s.plan.root < |s.program.ops|
    ensures s.program.ops[s.plan.root].AndOp? && Inputs(s.program.ops[s.plan.root]) == Roots(cs, 0)
  {
    hide EmitAll;
    PlacedConnective(c, cs, 0, s.program.ops);
  }

  lemma ManySparse(ds: seq<T.Expr>, cs: seq<Cond>, ordered: bool)
    requires ShapesSome(ds, cs, ordered) && |cs| >= 2 && forall k | 0 <= k < |cs| :: !Plain(cs[k])
    ensures |ds| == |cs| && !T.Safe(T.AllOf(ds))
  {
    var j := CondOf(ds, cs, ordered, 1);
  }

  lemma MirrorsSays(s: Setup, c: Cond, r: nat)
    requires Mirrors(s, c, r)
    ensures E.WellFormed(s.plan, s.adaptive) && r < |s.plan.nodes|
    ensures Settled(c) ==> T.Safe(E.Decode(s.plan, s.adaptive, r))
    ensures !s.adaptive ==> (T.Safe(E.Decode(s.plan, s.adaptive, r)) <==> SafeInOrder(c))
    ensures Filled(c) ==> X.NonEmpty(E.Decode(s.plan, s.adaptive, r))
  {
  }
}
