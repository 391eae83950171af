/** The evaluator on a rule's plan: nodes addressed by index, masks remembered per node. */
module EvalPlan {
  import opened ByteMask
  import opened MaskKernels
  import T = EvalTree

  /** `RuleExprNode`.  An AND keeps its children twice: sorted by cost, and as compiled. */
  datatype Node =
    | Pred(p: nat)
    | And(children: seq<nat>, original: seq<nat>)
    | Or(children: seq<nat>)
    | Not(child: nat)

  datatype Plan = Plan(nodes: seq<Node>, root: nat)

  /** The order in which a node's children are evaluated. */
  function Chosen(node: Node, adaptive: bool): seq<nat> {
    match node
    case Pred(_) => []
    case And(children, original) => if !adaptive && original != [] then original else children
    case Or(children) => children
    case Not(child) => [child]
  }

  /** Children come before their parent, so the node index is a termination measure. */
  ghost predicate WellFormed(plan: Plan, adaptive: bool) {
    && plan.root < |plan.nodes|
    && forall n, k | 0 <= n < |plan.nodes| && 0 <= k < |Chosen(plan.nodes[n], adaptive)| ::
         Chosen(plan.nodes[n], adaptive)[k] < n
  }

  datatype Job = Job(plan: Plan, adaptive: bool, env: T.Env)

  /** `node_masks` and `survivors`. */
  datatype Store = Store(memo: map<nat, seq<bool>>, surv: seq<nat>)

  ghost predicate StoreOk(job: Job, st: Store) {
    forall n: nat | n in st.memo :: |st.memo[n]| == job.env.m
  }

  datatype Result = Result(mask: seq<bool>, st: Store)

  ghost function Remember(node: nat, mask: seq<bool>, st: Store): Result {
    Result(mask, st.(memo := st.memo[node := mask]))
  }

  /** `ExprEvaluator::eval` on values. */
  ghost function Run(job: Job, node: nat, st: Store): (r: Result)
    requires WellFormed(job.plan, job.adaptive) && node < |job.plan.nodes| && StoreOk(job, st)
    ensures |r.mask| == job.env.m && StoreOk(job, r.st)
    decreases node, 1, 0
  {
    var cs := Chosen(job.plan.nodes[node], job.adaptive);
    if node in st.memo then Result(st.memo[node], st)
    else
      match job.plan.nodes[node]
      case Pred(p) => Remember(node, job.env.Get(p), st)
      case Not(child) =>
        assert cs[0] == child;
        var r := Run(job, child, st);
        Remember(node, NotRows(r.mask), r.st)
      case Or(_) =>
        if cs == [] then Remember(node, NoRows(job.env.m), st)
        else
          var first := Run(job, cs[0], st);
          var r := RunOr(job, node, cs[1..], first.mask, first.st);
          Remember(node, r.mask, r.st)
      case And(_, _) =>
        if cs == [] then Remember(node, NoRows(job.env.m), st)
        else
          var first := Run(job, cs[0], st);
          if job.env.Sparse(first.mask, |cs|) then
            if Count(first.mask) == 0 then Remember(node, NoRows(job.env.m), first.st)
            else
              var s := RunSparse(job, node, cs[1..], first.st.(surv := Indices(first.mask)));
              Remember(node, T.FromIndices(s.surv, job.env.m), s)
          else
            var r := RunAnd(job, node, cs[1..], first.mask, first.st);
            Remember(node, r.mask, r.st)
  }

  ghost predicate Below(cs: seq<nat>, bound: nat) {
    forall k | 0 <= k < |cs| :: cs[k] < bound
  }

  ghost function RunOr(job: Job, bound: nat, cs: seq<nat>, acc: seq<bool>, st: Store): (r: Result)
    requires WellFormed(job.plan, job.adaptive) && bound <= |job.plan.nodes| && Below(cs, bound)
    requires StoreOk(job, st) && |acc| == job.env.m
    ensures |r.mask| == job.env.m && StoreOk(job, r.st)
    decreases bound, 0, |cs|
  {
    if cs == [] then Result(acc, st)
    else
      var r := Run(job, cs[0], st);
      RunOr(job, bound, cs[1..], OrRows(acc, r.mask), r.st)
  }

  ghost function RunAnd(job: Job, bound: nat, cs: seq<nat>, acc: seq<bool>, st: Store): (r: Result)
    requires WellFormed(job.plan, job.adaptive) && bound <= |job.plan.nodes| && Below(cs, bound)
    requires StoreOk(job, st) && |acc| == job.env.m
    ensures |r.mask| == job.env.m && StoreOk(job, r.st)
    decreases bound, 0, |cs|
  {
    if cs == [] then Result(acc, st)
    else
      var r := Run(job, cs[0], st);
      RunAnd(job, bound, cs[1..], AndRows(acc, r.mask), r.st)
  }

  ghost function RunSparse(job: Job, bound: nat, cs: seq<nat>, st: Store): (r: Store)
    requires WellFormed(job.plan, job.adaptive) && bound <= |job.plan.nodes| && Below(cs, bound)
    requires StoreOk(job, st)
    ensures StoreOk(job, r)
    decreases bound, 0, |cs|
  {
    if cs == [] || st.surv == [] then st
    else
      var r := Run(job, cs[0], st);
      RunSparse(job, bound, cs[1..], r.st.(surv := T.Filter(r.st.surv, r.mask)))
  }

  // ---- Plans laid out as trees ---------------------------------------------------------------------

  /** The expression a node stands for, children in evaluation order. */
  ghost function Decode(plan: Plan, adaptive: bool, node: nat): T.Expr
    requires WellFormed(plan, adaptive) && node < |plan.nodes|
    decreases node, 1, 0
  {
    var cs := Chosen(plan.nodes[node], adaptive);
    match plan.nodes[node]
    case Pred(p) => T.Leaf(p)
    case Not(child) => assert cs[0] == child; T.NotOf(Decode(plan, adaptive, child))
    case Or(_) => T.AnyOf(DecodeAll(plan, adaptive, node, cs))
    case And(_, _) => T.AllOf(DecodeAll(plan, adaptive, node, cs))
  }

  ghost function DecodeAll(plan: Plan, adaptive: bool, bound: nat, cs: seq<nat>): (ds: seq<T.Expr>)
    requires WellFormed(plan, adaptive) && bound <= |plan.nodes| && Below(cs, bound)
    ensures |ds| == |cs| && forall k | 0 <= k < |cs| :: ds[k] == Decode(plan, adaptive, cs[k])
    decreases bound, 0, |cs|
  {
    if cs == [] then [] else [Decode(plan, adaptive, cs[0])] + DecodeAll(plan, adaptive, bound, cs[1..])
  }

  /** The least node index in the subtree under a node. */
  ghost function Low(plan: Plan, adaptive: bool, node: nat): (low: nat)
    requires WellFormed(plan, adaptive) && node < |plan.nodes|
    ensures low <= node
    decreases node, 1, 0
  {
    LowAll(plan, adaptive, node, Chosen(plan.nodes[node], adaptive))
  }

  ghost function LowAll(plan: Plan, adaptive: bool, bound: nat, cs: seq<nat>): (low: nat)
    requires WellFormed(plan, adaptive) && bound <= |plan.nodes| && Below(cs, bound)
    ensures low <= bound && forall k | 0 <= k < |cs| :: low <= Low(plan, adaptive, cs[k])
    decreases bound, 0, |cs|
  {
    if cs == [] then bound
    else
      var low, rest := Low(plan, adaptive, cs[0]), LowAll(plan, adaptive, bound, cs[1..]);
      if low < rest then low else rest
  }

  lemma {:induction false} LowAllBound(plan: Plan, adaptive: bool, bound: nat, cs: seq<nat>, base: nat)
    requires WellFormed(plan, adaptive) && bound <= |plan.nodes| && Below(cs, bound)
    requires base <= bound && forall k | 0 <= k < |cs| :: base <= Low(plan, adaptive, cs[k])
    ensures base <= LowAll(plan, adaptive, bound, cs)
    decreases |cs|
  {
    if cs != [] { LowAllBound(plan, adaptive, bound, cs[1..], base); }
  }

  ghost predicate InBlock(plan: Plan, adaptive: bool, n: nat, node: nat)
    requires WellFormed(plan, adaptive) && node < |plan.nodes|
  {
    Low(plan, adaptive, node) <= n <= node
  }

  ghost predicate Apart(plan: Plan, adaptive: bool, a: nat, b: nat)
    requires WellFormed(plan, adaptive) && a < |plan.nodes| && b < |plan.nodes|
  {
    a < Low(plan, adaptive, b) || b < Low(plan, adaptive, a)
  }

  /** Sibling subtrees occupy disjoint blocks of nodes. */
  ghost predicate TreeShaped(plan: Plan, adaptive: bool, node: nat)
    requires WellFormed(plan, adaptive) && node < |plan.nodes|
    decreases node
  {
    var cs := Chosen(plan.nodes[node], adaptive);
    && (forall k, l | 0 <= k < l < |cs| :: Apart(plan, adaptive, cs[k], cs[l]))
    && (forall k | 0 <= k < |cs| :: TreeShaped(plan, adaptive, cs[k]))
  }

  // ---- Memoised evaluation of a tree-shaped plan -----------------------------------------------------

  ghost predicate JobOk(job: Job, bound: nat, st: Store) {
    WellFormed(job.plan, job.adaptive) && bound <= |job.plan.nodes| && StoreOk(job, st)
  }

  /** No mask is remembered yet for the subtree. */
  ghost predicate Free(job: Job, st: Store, node: nat)
    requires WellFormed(job.plan, job.adaptive) && node < |job.plan.nodes|
  {
    forall n: nat | InBlock(job.plan, job.adaptive, n, node) :: n !in st.memo
  }

  /** Only nodes of the subtrees `cs` were remembered on the way. */
  ghost predicate Grew(job: Job, st: Store, after: Store, bound: nat, cs: seq<nat>)
    requires WellFormed(job.plan, job.adaptive) && bound <= |job.plan.nodes| && Below(cs, bound)
  {
    forall n: nat | n !in st.memo && n in after.memo ::
      exists k | 0 <= k < |cs| :: InBlock(job.plan, job.adaptive, n, cs[k])
  }

  /** Subtrees still to be evaluated: apart, tree-shaped, and not remembered. */
  ghost predicate Pending(job: Job, bound: nat, cs: seq<nat>, st: Store) {
    && JobOk(job, bound, st) && Below(cs, bound)
    && (forall k, l | 0 <= k < l < |cs| :: Apart(job.plan, job.adaptive, cs[k], cs[l]))
    && (forall k | 0 <= k < |cs| :: TreeShaped(job.plan, job.adaptive, cs[k]) && Free(job, st, cs[k]))
  }

  /** After the first pending subtree the others are still pending. */
  lemma PendingRest(job: Job, bound: nat, cs: seq<nat>, st: Store, after: Store)
    requires cs != [] && Pending(job, bound, cs, st)
    requires StoreOk(job, after) && Grew(job, st, after, bound, [cs[0]])
    ensures Pending(job, bound, cs[1..], after)
  {
    var rest := cs[1..];
    forall k | 0 <= k < |rest| ensures Free(job, after, rest[k]) {
      assert Apart(job.plan, job.adaptive, cs[0], cs[k + 1]);
      assert Free(job, st, cs[k + 1]);
    }
    forall k, l | 0 <= k < l < |rest| ensures Apart(job.plan, job.adaptive, rest[k], rest[l]) {
      assert Apart(job.plan, job.adaptive, cs[k + 1], cs[l + 1]);
    }
  }

  lemma GrewOnce(job: Job, bound: nat, st: Store, mid: Store, after: Store, cs: seq<nat>)
    requires WellFormed(job.plan, job.adaptive) && bound <= |job.plan.nodes| && Below(cs, bound) && cs != []
    requires Grew(job, st, mid, bound, [cs[0]]) && Grew(job, mid, after, bound, cs[1..])
    ensures Grew(job, st, after, bound, cs)
  {
    forall n: nat | n !in st.memo && n in after.memo
      ensures exists k | 0 <= k < |cs| :: InBlock(job.plan, job.adaptive, n, cs[k])
    {
      if n in mid.memo {
        assert InBlock(job.plan, job.adaptive, n, cs[0]);
      } else {
        var k :| 0 <= k < |cs[1..]| && InBlock(job.plan, job.adaptive, n, cs[1..][k]);
        assert InBlock(job.plan, job.adaptive, n, cs[k + 1]);
      }
    }
  }

  /** What was remembered for the children was remembered for the parent. */
  lemma GrewParent(job: Job, node: nat, st: Store, after: Store)
    requires JobOk(job, node + 1, st)
    requires Grew(job, st, after, node, Chosen(job.plan.nodes[node], job.adaptive))
    ensures Grew(job, st, after, node + 1, [node])
  {
    var cs := Chosen(job.plan.nodes[node], job.adaptive);
    forall n: nat | n !in st.memo && n in after.memo ensures InBlock(job.plan, job.adaptive, n, [node][0]) {
      var k :| 0 <= k < |cs| && InBlock(job.plan, job.adaptive, n, cs[k]);
    }
  }

  /** Same result as on the tree, and new memo entries only inside the block. */
  ghost predicate Agrees(job: Job, node: nat, st: Store, r: Result)
    requires WellFormed(job.plan, job.adaptive) && node < |job.plan.nodes|
  {
    var t := T.Go(Decode(job.plan, job.adaptive, node), job.env, st.surv);
    && r.mask == t.mask && r.st.surv == t.surv
    && Grew(job, st, r.st, node + 1, [node])
  }

  lemma ChildrenPending(job: Job, node: nat, st: Store)
    requires JobOk(job, node + 1, st) && TreeShaped(job.plan, job.adaptive, node) && Free(job, st, node)
    ensures Pending(job, node, Chosen(job.plan.nodes[node], job.adaptive), st)
    ensures node !in st.memo
  {
    var cs := Chosen(job.plan.nodes[node], job.adaptive);
    forall k | 0 <= k < |cs| ensures Free(job, st, cs[k]) {
      forall n: nat | InBlock(job.plan, job.adaptive, n, cs[k]) ensures n !in st.memo {
        assert InBlock(job.plan, job.adaptive, n, node);
      }
    }
    assert InBlock(job.plan, job.adaptive, node, node);
  }

  /** On a tree-shaped plan with nothing remembered for it yet, memoised evaluation is evaluation of
      the tree. */
  lemma {:induction false} RunIsGo(job: Job, node: nat, st: Store)
    requires JobOk(job, node + 1, st) && TreeShaped(job.plan, job.adaptive, node) && Free(job, st, node)
    ensures Agrees(job, node, st, Run(job, node, st))
    decreases node, 1, 0
  {
    var cs := Chosen(job.plan.nodes[node], job.adaptive);
    ChildrenPending(job, node, st);
    if cs == [] {
      assert InBlock(job.plan, job.adaptive, node, [node][0]);
      return;
    }
    RunIsGo(job, cs[0], st);
    var first := Run(job, cs[0], st);
    PendingRest(job, node, cs, st, first.st);
    match job.plan.nodes[node]
    case Not(child) => RunNotNodeIsGo(job, node, st, first);
    case Or(_) => RunOrNodeIsGo(job, node, st, first);
    case And(_, _) => RunAndNodeIsGo(job, node, st, first);
  }

  /** The state of the induction after the first child of a node. */
  ghost predicate FirstDone(job: Job, node: nat, st: Store, first: Result) {
    && JobOk(job, node + 1, st) && node !in st.memo
    && var cs := Chosen(job.plan.nodes[node], job.adaptive);
    && cs != [] && Below(cs, node) && StoreOk(job, first.st)
    && first == Run(job, cs[0], st) && Agrees(job, cs[0], st, first)
    && Pending(job, node, cs[1..], first.st)
  }

  lemma RunNotNodeIsGo(job: Job, node: nat, st: Store, first: Result)
    requires FirstDone(job, node, st, first) && job.plan.nodes[node].Not?
    ensures Agrees(job, node, st, Run(job, node, st))
  {
    var child := job.plan.nodes[node].child;
    var cs := Chosen(job.plan.nodes[node], job.adaptive);
    assert cs == [child];
    assert Decode(job.plan, job.adaptive, node) == T.NotOf(Decode(job.plan, job.adaptive, child));
    assert Run(job, node, st) == Remember(node, NotRows(first.mask), first.st);
    assert Grew(job, st, first.st, node, cs);
    GrewParent(job, node, st, first.st);
    assert InBlock(job.plan, job.adaptive, node, [node][0]);
  }

  lemma {:induction false} RunOrNodeIsGo(job: Job, node: nat, st: Store, first: Result)
    requires FirstDone(job, node, st, first) && job.plan.nodes[node].Or?
    ensures Agrees(job, node, st, Run(job, node, st))
    decreases node, 0, |job.plan.nodes[node].children| + 1
  {
    var cs := Chosen(job.plan.nodes[node], job.adaptive);
    var ds := DecodeAll(job.plan, job.adaptive, node, cs);
    assert ds[1..] == DecodeAll(job.plan, job.adaptive, node, cs[1..]);
    assert InBlock(job.plan, job.adaptive, node, [node][0]);
    RunOrIsGo(job, node, cs[1..], first.mask, first.st);
    var r := RunOr(job, node, cs[1..], first.mask, first.st);
    hide TreeShaped, Pending, Free, Apart, T.OrRest;
    GrewOnce(job, node, st, first.st, r.st, cs);
    GrewParent(job, node, st, r.st);
  }

  /** The AND case: the dense loop, the empty first child, and the survivor loop. */
  lemma {:induction false} RunAndNodeIsGo(job: Job, node: nat, st: Store, first: Result)
    requires FirstDone(job, node, st, first) && job.plan.nodes[node].And?
    ensures Agrees(job, node, st, Run(job, node, st))
    decreases node, 0, |job.plan.nodes[node].children| + |job.plan.nodes[node].original| + 1
  {
    var cs := Chosen(job.plan.nodes[node], job.adaptive);
    var ds := DecodeAll(job.plan, job.adaptive, node, cs);
    assert ds[1..] == DecodeAll(job.plan, job.adaptive, node, cs[1..]);
    assert InBlock(job.plan, job.adaptive, node, [node][0]);
    if !job.env.Sparse(first.mask, |cs|) {
      RunAndIsGo(job, node, cs[1..], first.mask, first.st);
      var r := RunAnd(job, node, cs[1..], first.mask, first.st);
      GrewOnce(job, node, st, first.st, r.st, cs);
      GrewParent(job, node, st, r.st);
    } else if Count(first.mask) == 0 {
      GrewOnce(job, node, st, first.st, first.st, cs);
      GrewParent(job, node, st, first.st);
    } else {
      var from := first.st.(surv := Indices(first.mask));
      RunSparseIsGo(job, node, cs[1..], from);
      var s := RunSparse(job, node, cs[1..], from);
      GrewOnce(job, node, st, from, s, cs);
      GrewParent(job, node, st, s);
    }
  }

  lemma {:induction false} RunOrIsGo(job: Job, bound: nat, cs: seq<nat>, acc: seq<bool>, st: Store)
    requires Pending(job, bound, cs, st) && |acc| == job.env.m
    ensures var r, t := RunOr(job, bound, cs, acc, st),
                        T.OrRest(DecodeAll(job.plan, job.adaptive, bound, cs), job.env, acc, st.surv);
            r.mask == t.mask && r.st.surv == t.surv && Grew(job, st, r.st, bound, cs)
    decreases bound, 0, |cs|
  {
    if cs != [] {
      RunIsGo(job, cs[0], st);
      var r := Run(job, cs[0], st);
      PendingRest(job, bound, cs, st, r.st);
      RunOrIsGo(job, bound, cs[1..], OrRows(acc, r.mask), r.st);
      assert DecodeAll(job.plan, job.adaptive, bound, cs)[1..] == DecodeAll(job.plan, job.adaptive, bound, cs[1..]);
      GrewOnce(job, bound, st, r.st, RunOr(job, bound, cs, acc, st).st, cs);
    }
  }

  lemma {:induction false} RunAndIsGo(job: Job, bound: nat, cs: seq<nat>, acc: seq<bool>, st: Store)
    requires Pending(job, bound, cs, st) && |acc| == job.env.m
    ensures var r, t := RunAnd(job, bound, cs, acc, st),
                        T.AndRest(DecodeAll(job.plan, job.adaptive, bound, cs), job.env, acc, st.surv);
            r.mask == t.mask && r.st.surv == t.surv && Grew(job, st, r.st, bound, cs)
    decreases bound, 0, |cs|
  {
    if cs != [] {
      RunIsGo(job, cs[0], st);
      var r := Run(job, cs[0], st);
      PendingRest(job, bound, cs, st, r.st);
      RunAndIsGo(job, bound, cs[1..], AndRows(acc, r.mask), r.st);
      assert DecodeAll(job.plan, job.adaptive, bound, cs)[1..] == DecodeAll(job.plan, job.adaptive, bound, cs[1..]);
      GrewOnce(job, bound, st, r.st, RunAnd(job, bound, cs, acc, st).st, cs);
    }
  }

  lemma {:induction false} RunSparseIsGo(job: Job, bound: nat, cs: seq<nat>, st: Store)
    requires Pending(job, bound, cs, st)
    ensures var r := RunSparse(job, bound, cs, st);
            && r.surv == T.SparseRest(DecodeAll(job.plan, job.adaptive, bound, cs), job.env, st.surv)
            && Grew(job, st, r, bound, cs)
    decreases bound, 0, |cs|
  {
    if cs != [] && st.surv != [] {
      RunIsGo(job, cs[0], st);
      var r := Run(job, cs[0], st);
      var next := r.st.(surv := T.Filter(r.st.surv, r.mask));
      PendingRest(job, bound, cs, st, next);
      RunSparseIsGo(job, bound, cs[1..], next);
      assert DecodeAll(job.plan, job.adaptive, bound, cs)[1..] == DecodeAll(job.plan, job.adaptive, bound, cs[1..]);
      GrewOnce(job, bound, st, next, RunSparse(job, bound, cs, st), cs);
    }
  }

  /** A rule whose tree-shaped plan is safe evaluates to its plain Boolean meaning from a cleared
      memo, under every option setting and whatever the survivor list held before. */
  lemma RuleExact(job: Job, surv: seq<nat>)
    requires WellFormed(job.plan, job.adaptive) && TreeShaped(job.plan, job.adaptive, job.plan.root)
    requires T.Safe(Decode(job.plan, job.adaptive, job.plan.root)) || !job.env.Selects()
    ensures Run(job, job.plan.root, Store(map[], surv)).mask
         == T.Truth(Decode(job.plan, job.adaptive, job.plan.root), job.env)
  {
    RunIsGo(job, job.plan.root, Store(map[], surv));
    T.SafeExact(Decode(job.plan, job.adaptive, job.plan.root), job.env, surv);
  }
}
