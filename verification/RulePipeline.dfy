/** From a condition tree to its row mask: compile, plan, evaluate. */
module RulePipeline {
  import opened Predicates
  import opened RuleCompiler
  import opened GlobalPlan
  import opened Segments
  import PredicateKey
  import E = EvalPlan
  import T = EvalTree

  /** The operations of c occupy positions base, base + 1, ... of the program. */
  ghost predicate Placed(c: Cond, base: nat, ops: seq<Op>) {
    Sits(Emit(c, base), base, ops)
  }

  ghost predicate PlacedAll(cs: seq<Cond>, base: nat, ops: seq<Op>) {
    Sits(EmitAll(cs, base), base, ops)
  }

  /** The register of c's result. */
  function Root(c: Cond, base: nat): nat {
    base + |Emit(c, base)| - 1
  }

  /** A plan and the pool it indexes, evaluated over some rows. */
  datatype Setup = Setup(w: World, plan: E.Plan, adaptive: bool, program: Program, pool: seq<Predicate>, rows: seq<Row>) {
    /** What `GlobalPlan.BuildGlobalPlan` leaves, for predicates whose values hold no separator. */
    ghost predicate Built() {
      && Numbered(program.ops) && program.final < |program.ops|
      && PlanFor(plan, program, pool)
      && (forall i | 0 <= i < |program.ops| && program.ops[i].PredOp? :: PredicateKey.Clean(program.ops[i].p))
      && (forall p | 0 <= p < |pool| :: PredicateKey.Clean(pool[p]))
    }

    /** The same without keys: node n is operation n, its children in some order, and in the compiled one
        unless the order is adaptive. */
    ghost predicate Ok() {
      && |plan.nodes| == |program.ops| && plan.root == program.final < |program.ops|
      && E.WellFormed(plan, adaptive)
      && forall n: nat {:trigger plan.nodes[n]} | n < |plan.nodes| :: IsNode(plan.nodes[n], program.ops[n], n)
    }

    ghost predicate IsNode(node: E.Node, op: Op, n: nat) {
      && E.Below(Inputs(op), n)
      && (!adaptive && !op.PredOp? ==> E.Chosen(node, adaptive) == Inputs(op))
      && match op
         case PredOp(p, _) => node.Pred? && node.p < |pool| && pool[node.p] == p
         case AndOp(inputs, _) => node.And? && multiset(E.Chosen(node, adaptive)) == multiset(inputs)
         case OrOp(inputs, _) => node.Or? && multiset(E.Chosen(node, adaptive)) == multiset(inputs)
         case NotOp(input, _) => node == E.Not(input)
    }

    /** The predicate masks of the morsel: each pool entry's answer on each row. */
    ghost function Env(o: T.Options): (env: T.Env)
      ensures env.m == |rows|
    {
      T.Env(map p: nat | p < |pool| :: seq(|rows|, i requires 0 <= i < |rows| => Holds(w, pool[p], rows[i])), |rows|, o)
    }
  }

  /** Sharing by key is sharing by equality, so a built plan's nodes are its operations. */
  lemma BuiltIsOk(s: Setup)
    requires s.Built()
    ensures s.Ok()
  {
    forall n: nat | n < |s.plan.nodes|
      ensures s.IsNode(s.plan.nodes[n], s.program.ops[n], n)
      ensures E.Below(E.Chosen(s.plan.nodes[n], s.adaptive), n)
    {
      BuiltNode(s, n);
    }
    forall n, k | 0 <= n < |s.plan.nodes| && 0 <= k < |E.Chosen(s.plan.nodes[n], s.adaptive)|
      ensures E.Chosen(s.plan.nodes[n], s.adaptive)[k] < n
    {
      assert E.Below(E.Chosen(s.plan.nodes[n], s.adaptive), n);
    }
  }

  lemma BuiltNode(s: Setup, n: nat)
    requires s.Built() && n < |s.plan.nodes|
    ensures s.IsNode(s.plan.nodes[n], s.program.ops[n], n)
    ensures E.Below(E.Chosen(s.plan.nodes[n], s.adaptive), n)
  {
    var node, op := s.plan.nodes[n], s.program.ops[n];
    assert NodeFor(node, op, s.pool);
    if op.PredOp? {
      PredicateKey.KeyInjective(s.pool[node.p], op.p);
    } else {
      assert op.AndOp? && (s.adaptive || op.inputs == []) ==> E.Chosen(node, s.adaptive) == node.children;
      BelowRearranged(E.Chosen(node, s.adaptive), Inputs(op), n);
      assert op.AndOp? && op.inputs == [] ==> |multiset(node.children)| == 0;
    }
  }

  lemma BelowRearranged(xs: seq<nat>, ys: seq<nat>, bound: nat)
    requires multiset(xs) == multiset(ys) && E.Below(ys, bound)
    ensures E.Below(xs, bound)
  {
    forall k | 0 <= k < |xs| ensures xs[k] < bound {
      assert xs[k] in multiset(ys);
    }
  }

  /** The subtree under register r is a tree on nodes base, ..., r. */
  ghost predicate Laid(s: Setup, r: nat, base: nat)
    requires E.WellFormed(s.plan, s.adaptive)
  {
    base <= r < |s.plan.nodes| && E.TreeShaped(s.plan, s.adaptive, r) && base <= E.Low(s.plan, s.adaptive, r)
  }

  /** The children's registers, each in a block of its own. */
  ghost predicate LaidAll(s: Setup, rs: seq<nat>, base: nat, top: nat)
    requires E.WellFormed(s.plan, s.adaptive)
  {
    && (forall k | 0 <= k < |rs| :: rs[k] < top && Laid(s, rs[k], base))
    && (forall k, l | 0 <= k < l < |rs| :: rs[k] < E.Low(s.plan, s.adaptive, rs[l]))
  }

  /** The truth of the subtree under register r on row i. */
  ghost predicate True(s: Setup, o: T.Options, r: nat, i: nat)
    requires E.WellFormed(s.plan, s.adaptive) && r < |s.plan.nodes| && i < |s.rows|
  {
    T.TruthAt(E.Decode(s.plan, s.adaptive, r), s.Env(o), i)
  }

  /** A predicate node answers what its operation does. */
  lemma LeafTruth(s: Setup, o: T.Options, n: nat, i: nat)
    requires s.Ok() && n < |s.plan.nodes| && i < |s.rows| && s.program.ops[n].PredOp?
    ensures True(s, o, n, i) == Holds(s.w, s.program.ops[n].p, s.rows[i])
  {
    var node := s.plan.nodes[n];
    assert s.IsNode(node, s.program.ops[n], n);
    assert E.Decode(s.plan, s.adaptive, n) == T.Leaf(node.p);
    assert node.p in s.Env(o).preds;
  }

  /** A connective's children in evaluation order rearrange its inputs. */
  lemma ChosenInputs(s: Setup, n: nat)
    requires s.Ok() && n < |s.plan.nodes| && !s.program.ops[n].PredOp?
    ensures multiset(E.Chosen(s.plan.nodes[n], s.adaptive)) == multiset(Inputs(s.program.ops[n]))
    ensures E.Below(E.Chosen(s.plan.nodes[n], s.adaptive), n) && E.Below(Inputs(s.program.ops[n]), n)
  {
    var node, op := s.plan.nodes[n], s.program.ops[n];
    assert s.IsNode(node, op, n);
    BelowRearranged(E.Chosen(node, s.adaptive), Inputs(op), n);
  }

  lemma {:induction false} IncreasingDistinct(rs: seq<nat>)
    requires forall k, l | 0 <= k < l < |rs| :: rs[k] < rs[l]
    ensures forall x: nat | x in rs :: multiset(rs)[x] == 1
  {
    if rs != [] {
      var last := |rs| - 1;
      IncreasingDistinct(rs[..last]);
      assert rs == rs[..last] + [rs[last]];
    }
  }

  lemma Twice(xs: seq<nat>, k: nat, l: nat)
    requires k < l < |xs| && xs[k] == xs[l]
    ensures multiset(xs)[xs[k]] >= 2
  {
    assert xs == xs[..l] + xs[l..];
    assert xs[k] == xs[..l][k] && xs[k] == xs[l..][0];
    assert xs[k] in multiset(xs[..l]) && xs[k] in multiset(xs[l..]);
  }

  /** The evaluation order of a connective's children rearranges its inputs, each once. */
  lemma ChosenRearranges(s: Setup, n: nat)
    requires s.Ok() && n < |s.plan.nodes| && !s.program.ops[n].PredOp?
    requires var rs := Inputs(s.program.ops[n]); forall k, l | 0 <= k < l < |rs| :: rs[k] < rs[l]
    ensures var rs, chosen := Inputs(s.program.ops[n]), E.Chosen(s.plan.nodes[n], s.adaptive);
            && |chosen| == |rs|
            && (forall x: nat :: x in chosen <==> x in rs)
            && (forall k, l | 0 <= k < l < |chosen| :: chosen[k] != chosen[l])
  {
    var rs, chosen := Inputs(s.program.ops[n]), E.Chosen(s.plan.nodes[n], s.adaptive);
    ChosenInputs(s, n);
    assert |multiset(chosen)| == |chosen| && |multiset(rs)| == |rs|;
    IncreasingDistinct(rs);
    forall x: nat ensures x in chosen <==> x in rs {
      assert x in chosen <==> x in multiset(chosen);
      assert x in rs <==> x in multiset(rs);
    }
    forall k, l | 0 <= k < l < |chosen| ensures chosen[k] != chosen[l] {
      if chosen[k] == chosen[l] { Twice(chosen, k, l); }
    }
  }

  /** Whatever the order, the children's blocks stay apart. */
  lemma ChildrenShaped(s: Setup, n: nat, base: nat)
    requires s.Ok() && base <= n < |s.plan.nodes|
    requires !s.program.ops[n].PredOp? && LaidAll(s, Inputs(s.program.ops[n]), base, n)
    ensures Laid(s, n, base)
  {
    var rs, chosen := Inputs(s.program.ops[n]), E.Chosen(s.plan.nodes[n], s.adaptive);
    ChosenRearranges(s, n);
    forall k | 0 <= k < |chosen| ensures chosen[k] in rs {}
    forall k, l | 0 <= k < l < |chosen| ensures E.Apart(s.plan, s.adaptive, chosen[k], chosen[l]) {
      InputsApart(s, rs, base, n, chosen[k], chosen[l]);
    }
    forall k | 0 <= k < |chosen| ensures Laid(s, chosen[k], base) {
      InputLaid(s, rs, base, n, chosen[k]);
    }
    Parent(s, n, base);
  }

  lemma InputLaid(s: Setup, rs: seq<nat>, base: nat, top: nat, x: nat)
    requires E.WellFormed(s.plan, s.adaptive) && LaidAll(s, rs, base, top) && x in rs
    ensures Laid(s, x, base)
  {
  }

  lemma Parent(s: Setup, n: nat, base: nat)
    requires E.WellFormed(s.plan, s.adaptive) && base <= n < |s.plan.nodes|
    requires var cs := E.Chosen(s.plan.nodes[n], s.adaptive);
             && (forall k | 0 <= k < |cs| :: Laid(s, cs[k], base))
             && (forall k, l | 0 <= k < l < |cs| :: E.Apart(s.plan, s.adaptive, cs[k], cs[l]))
    ensures Laid(s, n, base)
  {
    LowOfChildren(s, n, base);
  }

  lemma InputsApart(s: Setup, rs: seq<nat>, base: nat, top: nat, x: nat, y: nat)
    requires E.WellFormed(s.plan, s.adaptive) && LaidAll(s, rs, base, top)
    requires x in rs && y in rs && x != y
    ensures E.Apart(s.plan, s.adaptive, x, y)
  {
    hide E.WellFormed, E.Low, E.TreeShaped;
    var a :| 0 <= a < |rs| && rs[a] == x;
    var b :| 0 <= b < |rs| && rs[b] == y;
    if a < b {
      assert rs[a] < E.Low(s.plan, s.adaptive, rs[b]);
    } else {
      assert rs[b] < E.Low(s.plan, s.adaptive, rs[a]);
    }
  }

  lemma LowOfChildren(s: Setup, n: nat, base: nat)
    requires E.WellFormed(s.plan, s.adaptive) && base <= n < |s.plan.nodes|
    requires var cs := E.Chosen(s.plan.nodes[n], s.adaptive);
             E.Below(cs, n) && forall k | 0 <= k < |cs| :: base <= E.Low(s.plan, s.adaptive, cs[k])
    ensures base <= E.Low(s.plan, s.adaptive, n)
  {
    E.LowAllBound(s.plan, s.adaptive, n, E.Chosen(s.plan.nodes[n], s.adaptive), base);
  }

  /** The truths of a connective's children in evaluation order. */
  ghost function Truths(s: Setup, o: T.Options, rs: seq<nat>, i: nat): (ts: seq<bool>)
    requires E.WellFormed(s.plan, s.adaptive) && i < |s.rows| && E.Below(rs, |s.plan.nodes|)
    ensures |ts| == |rs| && forall k | 0 <= k < |rs| :: ts[k] == True(s, o, rs[k], i)
  {
    seq(|rs|, k requires 0 <= k < |rs| => True(s, o, rs[k], i))
  }

  /** Rearranging registers rearranges their truths. */
  lemma SameTruths(s: Setup, o: T.Options, rs: seq<nat>, chosen: seq<nat>, i: nat)
    requires E.WellFormed(s.plan, s.adaptive) && i < |s.rows| && E.Below(rs, |s.plan.nodes|)
    requires E.Below(chosen, |s.plan.nodes|) && forall x: nat :: x in chosen <==> x in rs
    ensures forall b: bool :: b in Truths(s, o, rs, i) <==> b in Truths(s, o, chosen, i)
  {
    var ts, us := Truths(s, o, rs, i), Truths(s, o, chosen, i);
    forall b: bool | b in ts ensures b in us {
      var k :| 0 <= k < |rs| && ts[k] == b;
      assert rs[k] in chosen;
      var j :| 0 <= j < |chosen| && chosen[j] == rs[k];
      assert us[j] == b;
    }
    forall b: bool | b in us ensures b in ts {
      var k :| 0 <= k < |chosen| && us[k] == b;
      assert chosen[k] in rs;
      var j :| 0 <= j < |rs| && rs[j] == chosen[k];
      assert ts[j] == b;
    }
  }

  /** The truth of a node from the truths of its children in evaluation order. */
  lemma NodeTruth(s: Setup, o: T.Options, n: nat, i: nat)
    requires E.WellFormed(s.plan, s.adaptive) && n < |s.plan.nodes| && i < |s.rows|
    requires E.Below(E.Chosen(s.plan.nodes[n], s.adaptive), n)
    ensures var ts := Truths(s, o, E.Chosen(s.plan.nodes[n], s.adaptive), i);
            match s.plan.nodes[n]
            case Pred(_) => true
            case Not(_) => True(s, o, n, i) == !ts[0]
            case Or(_) => True(s, o, n, i) == (true in ts)
            case And(_, _) => True(s, o, n, i) == (ts != [] && false !in ts)
  {
    var chosen := E.Chosen(s.plan.nodes[n], s.adaptive);
    match s.plan.nodes[n]
    case Pred(_) =>
    case Not(child) =>
      assert chosen[0] == child;
    case Or(_) =>
      var ds := E.DecodeAll(s.plan, s.adaptive, n, chosen);
      assert forall k | 0 <= k < |ds| :: T.TruthAt(ds[k], s.Env(o), i) == Truths(s, o, chosen, i)[k];
    case And(_, _) =>
      var ds := E.DecodeAll(s.plan, s.adaptive, n, chosen);
      assert forall k | 0 <= k < |ds| :: T.TruthAt(ds[k], s.Env(o), i) == Truths(s, o, chosen, i)[k];
  }

  /** The evaluation order of a connective's children has the same members as its inputs. */
  lemma ChosenMembers(s: Setup, n: nat)
    requires s.Ok() && n < |s.plan.nodes| && !s.program.ops[n].PredOp?
    ensures var rs, chosen := Inputs(s.program.ops[n]), E.Chosen(s.plan.nodes[n], s.adaptive);
            |chosen| == |rs| && forall x: nat :: x in chosen <==> x in rs
  {
    var rs, chosen := Inputs(s.program.ops[n]), E.Chosen(s.plan.nodes[n], s.adaptive);
    ChosenInputs(s, n);
    assert |multiset(chosen)| == |chosen| && |multiset(rs)| == |rs|;
    forall x: nat ensures x in chosen <==> x in rs {
      assert x in chosen <==> x in multiset(chosen);
      assert x in rs <==> x in multiset(rs);
    }
  }

  /** A connective's truth from its inputs', whatever the order. */
  lemma ConnectiveTruth(s: Setup, o: T.Options, n: nat, i: nat)
    requires s.Ok() && n < |s.plan.nodes| && i < |s.rows|
    requires !s.program.ops[n].PredOp? && E.Below(Inputs(s.program.ops[n]), n)
    ensures var op := s.program.ops[n];
            var ts := Truths(s, o, Inputs(op), i);
            match op
            case PredOp(_, _) => true
            case NotOp(_, _) => True(s, o, n, i) == !ts[0]
            case OrOp(_, _) => True(s, o, n, i) == (true in ts)
            case AndOp(_, _) => True(s, o, n, i) == (ts != [] && false !in ts)
  {
    ConnectiveKind(s, n);
    ChosenMembers(s, n);
    ChosenInputs(s, n);
    var rs, chosen := Inputs(s.program.ops[n]), E.Chosen(s.plan.nodes[n], s.adaptive);
    assert E.Below(chosen, n);
    SameTruths(s, o, rs, chosen, i);
    NodeTruth(s, o, n, i);
    if s.program.ops[n].NotOp? {
      assert chosen[0] in rs;
    }
  }

  lemma ConnectiveKind(s: Setup, n: nat)
    requires s.Ok() && n < |s.plan.nodes|
    ensures s.program.ops[n].AndOp? ==> s.plan.nodes[n].And?
    ensures s.program.ops[n].OrOp? ==> s.plan.nodes[n].Or?
    ensures s.program.ops[n].NotOp? ==> s.plan.nodes[n].Not?
  {
    assert s.IsNode(s.plan.nodes[n], s.program.ops[n], n);
  }

  /** Register n of the program is the value of its operation over the registers before it. */
  lemma {:induction false} ExecAt(w: World, ops: seq<Op>, n: nat, row: Row)
    requires n < |ops|
    ensures Exec(w, ops, row)[n] == OpValue(w, ops[n], Exec(w, ops, row)[..n], row)
  {
    assert ops == ops[..n] + ops[n..] && ops == (ops[..n] + [ops[n]]) + ops[n + 1..];
    ExecPrefix(w, ops[..n], ops[n..], row);
    ExecPrefix(w, ops[..n] + [ops[n]], ops[n + 1..], row);
    ExecStep(w, ops[..n], ops[n], row);
    assert Exec(w, ops, row)[..n + 1][n] == Exec(w, ops, row)[n];
  }

  /** Plan node n computes what register n of the program computes, on every row. */
  lemma {:induction false} NodeIsRegister(s: Setup, o: T.Options, n: nat, i: nat)
    requires s.Ok() && n < |s.plan.nodes| && i < |s.rows|
    ensures True(s, o, n, i) == Exec(s.w, s.program.ops, s.rows[i])[n]
    decreases n
  {
    ExecAt(s.w, s.program.ops, n, s.rows[i]);
    var op := s.program.ops[n];
    if op.PredOp? {
      LeafTruth(s, o, n, i);
    } else {
      var rs := Inputs(op);
      ChosenInputs(s, n);
      ConnectiveTruth(s, o, n, i);
      var ts := Truths(s, o, rs, i);
      forall k | 0 <= k < |rs| ensures ts[k] == Exec(s.w, s.program.ops, s.rows[i])[rs[k]] {
        NodeIsRegister(s, o, rs[k], i);
      }
      OpValueOfTruths(s.w, op, Exec(s.w, s.program.ops, s.rows[i])[..n], s.rows[i], ts);
    }
  }

  lemma OpValueOfTruths(w: World, op: Op, regs: seq<bool>, row: Row, ts: seq<bool>)
    requires !op.PredOp? && |ts| == |Inputs(op)|
    requires forall k | 0 <= k < |ts| :: Inputs(op)[k] < |regs| && regs[Inputs(op)[k]] == ts[k]
    ensures match op
            case PredOp(_, _) => true
            case NotOp(_, _) => OpValue(w, op, regs, row) == !ts[0]
            case OrOp(_, _) => OpValue(w, op, regs, row) == (true in ts)
            case AndOp(_, _) => OpValue(w, op, regs, row) == (ts != [] && false !in ts)
  {
    var rs := Inputs(op);
    match op
    case NotOp(input, _) => assert rs[0] == input;
    case OrOp(inputs, _) =>
      if true in ts {
        var k :| 0 <= k < |ts| && ts[k];
        assert inputs[k] < |regs| && regs[inputs[k]];
      }
    case AndOp(inputs, _) =>
      if false in ts {
        var k :| 0 <= k < |ts| && !ts[k];
        assert !regs[inputs[k]];
      }
  }

  // ---- The layout of a compiled condition ----------------------------------------------------------------

  lemma PlacedParts(c: Cond, base: nat, ops: seq<Op>, head: seq<Op>, last: Op)
    requires Placed(c, base, ops) && Emit(c, base) == head + [last]
    ensures Sits(head, base, ops) && base + |head| < |ops| && ops[base + |head|] == last
    ensures Root(c, base) == base + |head|
  {
    SitsSplit(head, [last], base, ops);
    assert [last][0] == last;
  }

  lemma PlacedFirst(cs: seq<Cond>, base: nat, ops: seq<Op>)
    requires cs != [] && PlacedAll(cs, base, ops)
    ensures Placed(cs[0], base, ops) && PlacedAll(cs[1..], base + |Emit(cs[0], base)|, ops)
  {
    var head := Emit(cs[0], base);
    SitsSplit(head, EmitAll(cs[1..], base + |head|), base, ops);
  }

  /** The registers of a compiled condition form one tree on consecutive nodes. */
  lemma {:induction false} PlanLaid(s: Setup, c: Cond, base: nat)
    requires s.Ok() && Placed(c, base, s.program.ops)
    ensures Laid(s, Root(c, base), base)
    decreases c, 1
  {
    match c
    case Test(p) => LaidLeaf(s, c, PredOp(p, base), base);
    case Derived(p) => LaidLeaf(s, c, PredOp(p, base), base);
    case All(cs) =>
      PlacedConnective(c, cs, base, s.program.ops);
      PlanLaidAll(s, cs, base);
      LaidConnective(s, c, cs, base);
    case Any(cs) =>
      PlacedConnective(c, cs, base, s.program.ops);
      PlanLaidAll(s, cs, base);
      LaidConnective(s, c, cs, base);
    case Neg(d) =>
      if d.Test? && Flips(d.p) {
        LaidLeaf(s, c, PredOp(Invert(d.p), base), base);
      } else {
        PlacedNegation(d, base, s.program.ops);
        PlanLaid(s, d, base);
        LaidNegation(s, d, base);
      }
  }

  lemma LaidConnective(s: Setup, c: Cond, cs: seq<Cond>, base: nat)
    requires s.Ok() && (c == All(cs) || c == Any(cs)) && Placed(c, base, s.program.ops)
    requires LaidAll(s, Roots(cs, base), base, base + |EmitAll(cs, base)|)
    ensures Laid(s, Root(c, base), base)
  {
    PlacedConnective(c, cs, base, s.program.ops);
    LaidParent(s, Root(c, base), base, Roots(cs, base));
  }

  lemma LaidNegation(s: Setup, d: Cond, base: nat)
    requires s.Ok() && !(d.Test? && Flips(d.p)) && Placed(Neg(d), base, s.program.ops)
    requires Laid(s, Root(d, base), base)
    ensures Laid(s, Root(Neg(d), base), base)
  {
    PlacedNegation(d, base, s.program.ops);
    LaidAlone(s, Root(d, base), base);
    LaidParent(s, Root(Neg(d), base), base, [Root(d, base)]);
  }

  lemma LaidAlone(s: Setup, r: nat, base: nat)
    requires E.WellFormed(s.plan, s.adaptive) && Laid(s, r, base)
    ensures LaidAll(s, [r], base, r + 1)
  {
  }

  lemma LaidParent(s: Setup, n: nat, base: nat, rs: seq<nat>)
    requires s.Ok() && base <= n < |s.program.ops|
    requires !s.program.ops[n].PredOp? && Inputs(s.program.ops[n]) == rs && LaidAll(s, rs, base, n)
    ensures Laid(s, n, base)
  {
    ChildrenShaped(s, n, base);
  }

  lemma LaidLeaf(s: Setup, c: Cond, op: Op, base: nat)
    requires s.Ok() && Placed(c, base, s.program.ops)
    requires Emit(c, base) == [op] && op.PredOp?
    ensures Laid(s, Root(c, base), base)
  {
    PlacedParts(c, base, s.program.ops, [], op);
    assert s.IsNode(s.plan.nodes[base], op, base);
    assert E.Chosen(s.plan.nodes[base], s.adaptive) == [];
  }

  lemma PlacedConnective(c: Cond, cs: seq<Cond>, base: nat, ops: seq<Op>)
    requires (c == All(cs) || c == Any(cs)) && Placed(c, base, ops)
    ensures Root(c, base) == base + |EmitAll(cs, base)| < |ops| && PlacedAll(cs, base, ops)
    ensures c == All(cs) ==> ops[Root(c, base)] == AndOp(Roots(cs, base), Root(c, base))
    ensures c == Any(cs) ==> ops[Root(c, base)] == OrOp(Roots(cs, base), Root(c, base))
  {
    var head := EmitAll(cs, base);
    PlacedParts(c, base, ops, head, if c.All? then AndOp(Roots(cs, base), base + |head|) else OrOp(Roots(cs, base), base + |head|));
  }

  lemma PlacedNegation(d: Cond, base: nat, ops: seq<Op>)
    requires !(d.Test? && Flips(d.p)) && Placed(Neg(d), base, ops)
    ensures Root(Neg(d), base) == base + |Emit(d, base)| < |ops| && Placed(d, base, ops)
    ensures ops[Root(Neg(d), base)] == NotOp(Root(d, base), Root(Neg(d), base))
  {
    hide Emit;
    var head := Emit(d, base);
    EmitNegation(d, base);
    PlacedParts(Neg(d), base, ops, head, NotOp(base + |head| - 1, base + |head|));
  }

  lemma EmitNegation(d: Cond, base: nat)
    requires !(d.Test? && Flips(d.p))
    ensures Emit(Neg(d), base) == Emit(d, base) + [NotOp(base + |Emit(d, base)| - 1, base + |Emit(d, base)|)]
  {
    hide EmitAll, Roots, Invert;
  }

  lemma {:induction false} PlanLaidAll(s: Setup, cs: seq<Cond>, base: nat)
    requires s.Ok() && PlacedAll(cs, base, s.program.ops)
    ensures LaidAll(s, Roots(cs, base), base, base + |EmitAll(cs, base)|)
    decreases cs, 0
  {
    hide *;
    WellFormedPlan(s);
    if cs == [] {
      NothingLaid(s, cs, base);
    } else {
      var mid, rest := base + |Emit(cs[0], base)|, cs[1..];
      RootOf(cs[0], base);
      PlacedFirst(cs, base, s.program.ops);
      EmitAllStep(cs, base);
      PlanLaid(s, cs[0], base);
      PlanLaidAll(s, rest, mid);
      LaidCons(s, mid - 1, Roots(rest, mid), base, mid, mid + |EmitAll(rest, mid)|);
    }
  }

  lemma WellFormedPlan(s: Setup)
    requires s.Ok()
    ensures E.WellFormed(s.plan, s.adaptive)
  {
  }

  lemma NothingLaid(s: Setup, cs: seq<Cond>, base: nat)
    requires E.WellFormed(s.plan, s.adaptive) && cs == []
    ensures LaidAll(s, Roots(cs, base), base, base + |EmitAll(cs, base)|)
  {
  }

  lemma RootOf(c: Cond, base: nat)
    ensures Root(c, base) == base + |Emit(c, base)| - 1
  {
    hide Emit;
  }

  lemma LaidCons(s: Setup, r: nat, rest: seq<nat>, base: nat, mid: nat, top: nat)
    requires E.WellFormed(s.plan, s.adaptive) && base <= mid <= top
    requires r < mid && Laid(s, r, base) && LaidAll(s, rest, mid, top)
    ensures LaidAll(s, [r] + rest, base, top)
  {
    var rs := [r] + rest;
    forall k | 0 <= k < |rs| ensures rs[k] < top && Laid(s, rs[k], base) {
      assert k > 0 ==> Laid(s, rest[k - 1], mid);
    }
    forall k, l | 0 <= k < l < |rs| ensures rs[k] < E.Low(s.plan, s.adaptive, rs[l]) {
      assert Laid(s, rest[l - 1], mid);
    }
  }

  // ---- The whole pipeline ----------------------------------------------------------------------------------

  /** For every rule without a stuck negation, every batch of rows, every child order and every
      selection-vector setting that the plan's shape makes harmless: from a cleared memo and whatever
      survivor list was left over, bit i of the evaluated mask is the rule's meaning on row i. */
  lemma RuleMaskIsMeaning(s: Setup, o: T.Options, c: Cond, leftover: seq<nat>)
    requires s.Ok()
    requires s.program == Program(Emit(c, 0), |Emit(c, 0)| - 1) && NoStuckNegation(c)
    requires T.Safe(E.Decode(s.plan, s.adaptive, s.plan.root)) || !o.selection
    ensures var mask := E.Run(E.Job(s.plan, s.adaptive, s.Env(o)), s.plan.root, E.Store(map[], leftover)).mask;
            |mask| == |s.rows| && forall i | 0 <= i < |s.rows| :: mask[i] == Meaning(s.w, c, s.rows[i])
  {
    RuleIsTree(s, c);
    E.RuleExact(E.Job(s.plan, s.adaptive, s.Env(o)), leftover);
    forall i: nat | i < |s.rows| ensures True(s, o, s.plan.root, i) == Meaning(s.w, c, s.rows[i]) {
      RuleTruth(s, o, c, i);
    }
  }

  lemma RuleIsTree(s: Setup, c: Cond)
    requires s.Ok() && s.program == Program(Emit(c, 0), |Emit(c, 0)| - 1)
    ensures E.TreeShaped(s.plan, s.adaptive, s.plan.root)
  {
    hide *;
    WholePlaced(s, c);
    PlanLaid(s, c, 0);
    LaidIsTree(s);
  }

  lemma WholePlaced(s: Setup, c: Cond)
    requires s.Ok() && s.program == Program(Emit(c, 0), |Emit(c, 0)| - 1)
    ensures Placed(c, 0, s.program.ops) && Root(c, 0) == s.plan.root
    ensures E.WellFormed(s.plan, s.adaptive) && s.plan.root < |s.plan.nodes|
  {
    hide Emit, E.WellFormed, Setup.IsNode;
    SitsWhole(s.program.ops);
  }

  lemma LaidIsTree(s: Setup)
    requires E.WellFormed(s.plan, s.adaptive) && Laid(s, s.plan.root, 0)
    ensures E.TreeShaped(s.plan, s.adaptive, s.plan.root)
  {
    hide E.TreeShaped, E.WellFormed;
  }

  lemma RuleTruth(s: Setup, o: T.Options, c: Cond, i: nat)
    requires s.Ok() && i < |s.rows|
    requires s.program == Program(Emit(c, 0), |Emit(c, 0)| - 1) && NoStuckNegation(c)
    ensures True(s, o, s.plan.root, i) == Meaning(s.w, c, s.rows[i])
  {
    NodeIsRegister(s, o, s.plan.root, i);
    CompileExact(s.w, c, [], s.rows[i]);
    assert [] + Emit(c, 0) == Emit(c, 0);
  }
}
