/** Condition trees, their meaning under the null rule, and `CompileVisitor`, which turns a tree into
    a register program. */
module RuleCompiler {
  import opened Predicates

  /** `ConditionSpec` with its columns resolved.  A derived leaf is a model score, vector distance or
      array_any test: it becomes a numeric predicate on an injected column, and NOT never flips it. */
  datatype Cond =
    | Test(p: Predicate)
    | Derived(p: Predicate)
    | All(cs: seq<Cond>)
    | Any(cs: seq<Cond>)
    | Neg(c: Cond)

  /** A kernel operation and the register it writes. */
  datatype Op =
    | PredOp(p: Predicate, output: nat)
    | AndOp(inputs: seq<nat>, output: nat)
    | OrOp(inputs: seq<nat>, output: nat)
    | NotOp(input: nat, output: nat)

  // ---- Meaning ---------------------------------------------------------------------------------------

  /** What a rule means on a row.  A leaf is false on a null; NOT over a leaf kind that flips is "known
      and not p"; NOT over anything else is the complement; AND and OR without children are false. */
  predicate Meaning(w: World, c: Cond, row: Row) {
    match c
    case Test(p) => Holds(w, p, row)
    case Derived(p) => Holds(w, p, row)
    case All(cs) => cs != [] && forall k | 0 <= k < |cs| :: Meaning(w, cs[k], row)
    case Any(cs) => exists k | 0 <= k < |cs| :: Meaning(w, cs[k], row)
    case Neg(d) => if d.Test? && Flips(d.p) then Decided(d.p, row) && !Holds(w, d.p, row) else !Meaning(w, d, row)
  }

  /** Two-valued logic, with no null rule for NOT. */
  predicate Classical(w: World, c: Cond, row: Row) {
    match c
    case Test(p) => Holds(w, p, row)
    case Derived(p) => Holds(w, p, row)
    case All(cs) => cs != [] && forall k | 0 <= k < |cs| :: Classical(w, cs[k], row)
    case Any(cs) => exists k | 0 <= k < |cs| :: Classical(w, cs[k], row)
    case Neg(d) => !Classical(w, d, row)
  }

  predicate AllKnown(c: Cond, row: Row) {
    match c
    case Test(p) => Decided(p, row)
    case Derived(p) => Decided(p, row)
    case All(cs) => forall k | 0 <= k < |cs| :: AllKnown(cs[k], row)
    case Any(cs) => forall k | 0 <= k < |cs| :: AllKnown(cs[k], row)
    case Neg(d) => AllKnown(d, row)
  }

  /** On a row with no null in a column the rule reads, the null rule is classical logic. */
  lemma {:induction false} MeaningIsClassical(w: World, c: Cond, row: Row)
    requires AllKnown(c, row)
    ensures Meaning(w, c, row) == Classical(w, c, row)
  {
    match c
    case Test(_) =>
    case Derived(_) =>
    case All(cs) => forall k | 0 <= k < |cs| { MeaningIsClassical(w, cs[k], row); }
    case Any(cs) =>
      forall k | 0 <= k < |cs| ensures Meaning(w, cs[k], row) == Classical(w, cs[k], row) {
        MeaningIsClassical(w, cs[k], row);
      }
    case Neg(d) => MeaningIsClassical(w, d, row);
  }

  // ---- The program on values ---------------------------------------------------------------------------

  /** The operations compiled for a condition when `base` registers are already in use. */
  function Emit(c: Cond, base: nat): (ops: seq<Op>)
    ensures |ops| >= 1
    decreases c, 1
  {
    match c
    case Test(p) => [PredOp(p, base)]
    case Derived(p) => [PredOp(p, base)]
    case All(cs) =>
      var ops := EmitAll(cs, base);
      ops + [AndOp(Roots(cs, base), base + |ops|)]
    case Any(cs) =>
      var ops := EmitAll(cs, base);
      ops + [OrOp(Roots(cs, base), base + |ops|)]
    case Neg(d) =>
      if d.Test? && Flips(d.p) then [PredOp(Invert(d.p), base)]
      else
        var ops := Emit(d, base);
        ops + [NotOp(base + |ops| - 1, base + |ops|)]
  }

  function EmitAll(cs: seq<Cond>, base: nat): seq<Op>
    decreases cs, 0
  {
    if cs == [] then []
    else
      var ops := Emit(cs[0], base);
      ops + EmitAll(cs[1..], base + |ops|)
  }

  /** The registers that hold the children's results. */
  function Roots(cs: seq<Cond>, base: nat): (rs: seq<nat>)
    ensures |rs| == |cs|
    decreases cs, 0
  {
    if cs == [] then []
    else
      var n := |Emit(cs[0], base)|;
      [base + n - 1] + Roots(cs[1..], base + n)
  }

  lemma EmitAllStep(cs: seq<Cond>, base: nat)
    requires cs != []
    ensures var next := base + |Emit(cs[0], base)|;
            && EmitAll(cs, base) == Emit(cs[0], base) + EmitAll(cs[1..], next)
            && Roots(cs, base) == [next - 1] + Roots(cs[1..], next)
  {
    hide Emit;
  }

  /** `CompileCtx`'s growing sequence and register counter. */
  class CompileVisitor {
    var ops: seq<Op>
    var nextRegister: nat

    constructor ()
      ensures ops == [] && nextRegister == 0
    {
      ops, nextRegister := [], 0;
    }

    method Push(p: Predicate) returns (reg: nat)
      modifies this
      ensures ops == old(ops) + [PredOp(p, old(nextRegister))]
      ensures nextRegister == old(nextRegister) + 1 && reg == old(nextRegister)
    {
      reg := nextRegister;
      nextRegister := nextRegister + 1;
      ops := ops + [PredOp(p, reg)];
    }

    method Compile(c: Cond) returns (reg: nat)
      modifies this
      ensures ops == old(ops) + Emit(c, old(nextRegister))
      ensures nextRegister == old(nextRegister) + |Emit(c, old(nextRegister))|
      ensures reg == nextRegister - 1
      decreases c, 1
    {
      match c
      case Test(p) => reg := Push(p);
      case Derived(p) => reg := Push(p);
      case All(cs) =>
        var regs := CompileChildren(cs);
        reg := nextRegister;
        nextRegister := nextRegister + 1;
        ops := ops + [AndOp(regs, reg)];
      case Any(cs) =>
        var regs := CompileChildren(cs);
        reg := nextRegister;
        nextRegister := nextRegister + 1;
        ops := ops + [OrOp(regs, reg)];
      case Neg(d) =>
        if d.Test? && Flips(d.p) {
          reg := Push(Invert(d.p));
        } else {
          var input := Compile(d);
          reg := nextRegister;
          nextRegister := nextRegister + 1;
          ops := ops + [NotOp(input, reg)];
        }
    }

    /** The loop that compiles the children of an AND or OR and collects their registers. */
    method CompileChildren(cs: seq<Cond>) returns (regs: seq<nat>)
      modifies this
      ensures ops == old(ops) + EmitAll(cs, old(nextRegister))
      ensures nextRegister == old(nextRegister) + |EmitAll(cs, old(nextRegister))|
      ensures regs == Roots(cs, old(nextRegister))
      decreases cs, 0
    {
      hide *;
      regs := [];
      var i := 0;
      assert cs[0..] == cs && regs + Roots(cs, nextRegister) == Roots(cs, nextRegister);
      while i < |cs|
        invariant 0 <= i <= |cs|
        invariant ops + EmitAll(cs[i..], nextRegister) == old(ops) + EmitAll(cs, old(nextRegister))
        invariant nextRegister + |EmitAll(cs[i..], nextRegister)| == old(nextRegister) + |EmitAll(cs, old(nextRegister))|
        invariant regs + Roots(cs[i..], nextRegister) == Roots(cs, old(nextRegister))
      {
        ghost var base := nextRegister;
        ghost var before, ahead := ops, EmitAll(cs[i + 1..], base + |Emit(cs[i], base)|);
        assert cs[i..][0] == cs[i] && cs[i..][1..] == cs[i + 1..];
        EmitAllStep(cs[i..], base);
        var reg := Compile(cs[i]);
        assert (before + Emit(cs[i], base)) + ahead == before + (Emit(cs[i], base) + ahead);
        regs := regs + [reg];
        i := i + 1;
      }
      EmitNone(cs[i..], nextRegister);
    }
  }

  lemma EmitNone(cs: seq<Cond>, base: nat)
    requires cs == []
    ensures EmitAll(cs, base) == [] && Roots(cs, base) == []
  {
  }

  // ---- Running the program -------------------------------------------------------------------------------

  function OpValue(w: World, op: Op, regs: seq<bool>, row: Row): bool {
    match op
    case PredOp(p, _) => Holds(w, p, row)
    case AndOp(inputs, _) => inputs != [] && forall k | 0 <= k < |inputs| :: inputs[k] < |regs| && regs[inputs[k]]
    case OrOp(inputs, _) => exists k | 0 <= k < |inputs| :: inputs[k] < |regs| && regs[inputs[k]]
    case NotOp(input, _) => !(input < |regs| && regs[input])
  }

  /** The registers after running the program on a row; operation i writes register i. */
  function Exec(w: World, ops: seq<Op>, row: Row): (regs: seq<bool>)
    ensures |regs| == |ops|
  {
    if ops == [] then []
    else
      var regs := Exec(w, ops[..|ops| - 1], row);
      regs + [OpValue(w, ops[|ops| - 1], regs, row)]
  }

  /** No CONTAINS_ALL or FLAGS_ALL directly under a NOT, and every flipped operator fits its leaf. */
  predicate NoStuckNegation(c: Cond) {
    match c
    case Test(_) => true
    case Derived(_) => true
    case All(cs) => forall k | 0 <= k < |cs| :: NoStuckNegation(cs[k])
    case Any(cs) => forall k | 0 <= k < |cs| :: NoStuckNegation(cs[k])
    case Neg(d) => NoStuckNegation(d) && (d.Test? && Flips(d.p) ==> Proper(d.p) && Invertible(d.p.op))
  }

  lemma ExecStep(w: World, ops: seq<Op>, op: Op, row: Row)
    ensures Exec(w, ops + [op], row) == Exec(w, ops, row) + [OpValue(w, op, Exec(w, ops, row), row)]
  {
    assert (ops + [op])[..|ops|] == ops;
  }

  /** Later operations leave earlier registers alone. */
  lemma {:induction false} ExecPrefix(w: World, ops: seq<Op>, more: seq<Op>, row: Row)
    ensures Exec(w, ops + more, row)[..|ops|] == Exec(w, ops, row)
    decreases |more|
  {
    if more == [] {
      assert ops + more == ops;
    } else {
      var last := |more| - 1;
      assert ops + more == (ops + more[..last]) + [more[last]];
      ExecStep(w, ops + more[..last], more[last], row);
      ExecPrefix(w, ops, more[..last], row);
    }
  }

  /** Every register below the program's length keeps its value when the program grows. */
  lemma ExecKeeps(w: World, ops: seq<Op>, more: seq<Op>, r: nat, row: Row)
    requires r < |ops|
    ensures Exec(w, ops + more, row)[r] == Exec(w, ops, row)[r]
  {
    ExecPrefix(w, ops, more, row);
    assert Exec(w, ops + more, row)[..|ops|][r] == Exec(w, ops + more, row)[r];
  }

  /** Compiled behind any program, a condition leaves its meaning in its last register. */
  lemma {:induction false} CompileExact(w: World, c: Cond, prefix: seq<Op>, row: Row)
    requires NoStuckNegation(c)
    ensures var ops := prefix + Emit(c, |prefix|); Exec(w, ops, row)[|ops| - 1] == Meaning(w, c, row)
    decreases c, 1
  {
    var base := |prefix|;
    match c
    case Test(p) => ExecStep(w, prefix, PredOp(p, base), row);
    case Derived(p) => ExecStep(w, prefix, PredOp(p, base), row);
    case All(cs) =>
      CompileAllExact(w, cs, prefix, row);
      AllOpExact(w, cs, prefix, row);
    case Any(cs) =>
      CompileAllExact(w, cs, prefix, row);
      AnyOpExact(w, cs, prefix, row);
    case Neg(d) =>
      if d.Test? && Flips(d.p) {
        ExecStep(w, prefix, PredOp(Invert(d.p), base), row);
        FlipIsExact(w, d.p, row);
      } else {
        CompileExact(w, d, prefix, row);
        NotOpExact(w, d, prefix, row);
      }
  }

  lemma NotOpExact(w: World, d: Cond, prefix: seq<Op>, row: Row)
    requires !(d.Test? && Flips(d.p))
    requires var ops := prefix + Emit(d, |prefix|); Exec(w, ops, row)[|ops| - 1] == Meaning(w, d, row)
    ensures var ops := prefix + Emit(Neg(d), |prefix|); Exec(w, ops, row)[|ops| - 1] == !Meaning(w, d, row)
  {
    hide EmitAll, Roots, Invert, Exec;
    var base, ops := |prefix|, Emit(d, |prefix|);
    LastStep(w, prefix, ops, NotOp(base + |ops| - 1, base + |ops|), row);
  }

  /** The children's meanings are in their registers. */
  ghost predicate ChildrenDone(w: World, cs: seq<Cond>, prefix: seq<Op>, row: Row) {
    var ops, rs := prefix + EmitAll(cs, |prefix|), Roots(cs, |prefix|);
    forall k | 0 <= k < |cs| :: rs[k] < |ops| && Exec(w, ops, row)[rs[k]] == Meaning(w, cs[k], row)
  }

  lemma LastStep(w: World, prefix: seq<Op>, ops: seq<Op>, op: Op, row: Row)
    ensures var all := prefix + (ops + [op]);
            Exec(w, all, row)[|all| - 1] == OpValue(w, op, Exec(w, prefix + ops, row), row)
  {
    assert prefix + (ops + [op]) == (prefix + ops) + [op];
    ExecStep(w, prefix + ops, op, row);
  }

  lemma AllOpExact(w: World, cs: seq<Cond>, prefix: seq<Op>, row: Row)
    requires ChildrenDone(w, cs, prefix, row)
    ensures var ops := prefix + Emit(All(cs), |prefix|); Exec(w, ops, row)[|ops| - 1] == Meaning(w, All(cs), row)
  {
    var ops, rs := EmitAll(cs, |prefix|), Roots(cs, |prefix|);
    LastStep(w, prefix, ops, AndOp(rs, |prefix| + |ops|), row);
  }

  lemma AnyOpExact(w: World, cs: seq<Cond>, prefix: seq<Op>, row: Row)
    requires ChildrenDone(w, cs, prefix, row)
    ensures var ops := prefix + Emit(Any(cs), |prefix|); Exec(w, ops, row)[|ops| - 1] == Meaning(w, Any(cs), row)
  {
    var ops, rs := EmitAll(cs, |prefix|), Roots(cs, |prefix|);
    LastStep(w, prefix, ops, OrOp(rs, |prefix| + |ops|), row);
    AnyRegister(w, cs, rs, Exec(w, prefix + ops, row), row);
  }

  /** Some input register is set exactly when some child holds. */
  lemma AnyRegister(w: World, cs: seq<Cond>, rs: seq<nat>, regs: seq<bool>, row: Row)
    requires |rs| == |cs| && forall k | 0 <= k < |cs| :: rs[k] < |regs| && regs[rs[k]] == Meaning(w, cs[k], row)
    ensures (exists k :: 0 <= k < |rs| && rs[k] < |regs| && regs[rs[k]]) <==> Meaning(w, Any(cs), row)
  {
    if k :| 0 <= k < |cs| && Meaning(w, cs[k], row) {
      assert rs[k] < |regs| && regs[rs[k]];
    }
    if k :| 0 <= k < |rs| && rs[k] < |regs| && regs[rs[k]] {
      assert Meaning(w, cs[k], row);
    }
  }

  lemma {:induction false} CompileAllExact(w: World, cs: seq<Cond>, prefix: seq<Op>, row: Row)
    requires forall k | 0 <= k < |cs| :: NoStuckNegation(cs[k])
    ensures ChildrenDone(w, cs, prefix, row)
    decreases cs, 0
  {
    if cs != [] {
      hide Emit, EmitAll, Exec, Meaning, Roots;
      var head, rest := Emit(cs[0], |prefix|), cs[1..];
      CompileExact(w, cs[0], prefix, row);
      CompileAllExact(w, rest, prefix + head, row);
      ChildrenCons(w, cs, prefix, row);
    }
  }

  /** The first child's register survives its sisters' operations. */
  lemma ChildrenCons(w: World, cs: seq<Cond>, prefix: seq<Op>, row: Row)
    requires cs != []
    requires var ops := prefix + Emit(cs[0], |prefix|); Exec(w, ops, row)[|ops| - 1] == Meaning(w, cs[0], row)
    requires ChildrenDone(w, cs[1..], prefix + Emit(cs[0], |prefix|), row)
    ensures ChildrenDone(w, cs, prefix, row)
  {
    hide Emit, EmitAll, Roots, Exec, Meaning, Holds;
    EmitAllStep(cs, |prefix|);
    var base, ops := |prefix|, prefix + Emit(cs[0], |prefix|);
    var tail := EmitAll(cs[1..], |ops|);
    assert prefix + EmitAll(cs, base) == ops + tail;
    ExecKeeps(w, ops, tail, |ops| - 1, row);
  }

  /** What a whole compiled rule answers on a row. */
  function Answer(w: World, c: Cond, row: Row): bool {
    var ops := Emit(c, 0);
    Exec(w, ops, row)[|ops| - 1]
  }

  lemma FlippedAnswer(w: World, p: Predicate, row: Row)
    requires Flips(p)
    ensures Answer(w, Neg(Test(p)), row) == Holds(w, Invert(p), row)
  {
    hide Holds, Invert, Flips, Exec;
    LastStep(w, [], [], PredOp(Invert(p), 0), row);
    assert [] + ([] + [PredOp(Invert(p), 0)]) == [PredOp(Invert(p), 0)];
  }

  /** A rule that is one negated leaf means what it says on every row exactly when the leaf's operator
      has a complement. */
  lemma NegatedLeafExactIff(w: World, p: Predicate)
    requires Flips(p) && Proper(p)
    ensures Invertible(p.op) <==> forall row: Row :: Answer(w, Neg(Test(p)), row) == Meaning(w, Neg(Test(p)), row)
  {
    FlipExactIff(w, p);
    forall row: Row ensures (Answer(w, Neg(Test(p)), row) == Meaning(w, Neg(Test(p)), row)) == FlipAgrees(w, p, row) {
      FlippedAnswer(w, p, row);
    }
    if !Invertible(p.op) {
      var row: Row :| !FlipAgrees(w, p, row);
      assert Answer(w, Neg(Test(p)), row) != Meaning(w, Neg(Test(p)), row);
    }
  }
}
