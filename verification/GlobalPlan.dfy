/** `build_global_plan`: one shared pool of predicates, one plan per rule, children of ANDs in cost
    order, and the order in which the pool is evaluated. */
module GlobalPlan {
  import opened Predicates
  import opened PredicateKey
  import opened RuleCompiler
  import E = EvalPlan
  import T = EvalTree

  /** A compiled rule: its operations and the register of its result. */
  datatype Program = Program(ops: seq<Op>, final: nat)

  function Inputs(op: Op): seq<nat> {
    match op
    case PredOp(_, _) => []
    case AndOp(inputs, _) => inputs
    case OrOp(inputs, _) => inputs
    case NotOp(input, _) => [input]
  }

  /** Operation i writes register i and reads earlier ones. */
  ghost predicate Numbered(ops: seq<Op>) {
    forall i: nat | i < |ops| :: ops[i].output == i && E.Below(Inputs(ops[i]), i)
  }

  // ---- Sorting ---------------------------------------------------------------------------------------

  ghost predicate StrictWeak(less: (nat, nat) -> bool) {
    && (forall a, b :: less(a, b) ==> !less(b, a))
    && (forall a, b, c :: !less(b, a) && !less(c, b) ==> !less(c, a))
  }

  ghost predicate SortedBy(xs: seq<nat>, less: (nat, nat) -> bool) {
    forall i, j | 0 <= i < j < |xs| :: !less(xs[j], xs[i])
  }

  function Insert(x: nat, xs: seq<nat>, less: (nat, nat) -> bool): (ys: seq<nat>)
    ensures multiset(ys) == multiset(xs) + multiset{x}
  {
    if xs == [] then [x]
    else
      var last := |xs| - 1;
      assert xs == xs[..last] + [xs[last]];
      if less(x, xs[last]) then Insert(x, xs[..last], less) + [xs[last]] else xs + [x]
  }

  /** A stable sort, as insertion. */
  function Sorted(xs: seq<nat>, less: (nat, nat) -> bool): (ys: seq<nat>)
    ensures multiset(ys) == multiset(xs)
  {
    if xs == [] then []
    else
      var last := |xs| - 1;
      assert xs == xs[..last] + [xs[last]];
      Insert(xs[last], Sorted(xs[..last], less), less)
  }

  lemma {:induction false} InsertSorted(x: nat, xs: seq<nat>, less: (nat, nat) -> bool)
    requires StrictWeak(less) && SortedBy(xs, less)
    ensures SortedBy(Insert(x, xs, less), less)
  {
    if xs != [] {
      var last := |xs| - 1;
      if less(x, xs[last]) {
        InsertSorted(x, xs[..last], less);
        var ys := Insert(x, xs[..last], less);
        hide Insert;
        forall i | 0 <= i < |ys| ensures !less(xs[last], ys[i]) {
          assert ys[i] in multiset(ys);
          assert ys[i] == x || ys[i] in xs[..last];
        }
        SortedPush(ys, xs[last], less);
      } else {
        forall i | 0 <= i < |xs| ensures !less(x, xs[i]) {
          assert !less(xs[last], xs[i]);
        }
        SortedPush(xs, x, less);
      }
    }
  }

  lemma SortedPush(ys: seq<nat>, x: nat, less: (nat, nat) -> bool)
    requires SortedBy(ys, less) && forall i | 0 <= i < |ys| :: !less(x, ys[i])
    ensures SortedBy(ys + [x], less)
  {
  }

  lemma {:induction false} SortedIsSorted(xs: seq<nat>, less: (nat, nat) -> bool)
    requires StrictWeak(less)
    ensures SortedBy(Sorted(xs, less), less)
  {
    if xs != [] {
      SortedIsSorted(xs[..|xs| - 1], less);
      InsertSorted(xs[|xs| - 1], Sorted(xs[..|xs| - 1], less), less);
    }
  }

  // ---- Costs -------------------------------------------------------------------------------------------

  function PredicateCost(p: Predicate): nat {
    if p.Categorical? || p.ArrayLen? || p.NullTest? || p.Bitfield? then 1
    else if p.Numeric? || p.CrossField? || p.Temporal? then 2
    else if p.Cidr? || p.Lookup? || p.Range? then 3
    else if p.Window? then 4
    else if p.Str? || p.Arithmetic? then 5
    else 6
  }

  function PredicateColumn(p: Predicate): int {
    if p.Arithmetic? then
      if p.nodes != [] && p.nodes[|p.nodes| - 1].col >= 0 then p.nodes[|p.nodes| - 1].col else p.other
    else p.col
  }

  /** `expr_cost`: the cheapest predicate below a node, capped by the node's own cost. */
  function ExprCost(nodes: seq<E.Node>, pool: seq<Predicate>, node: nat): nat
    decreases node, 1, 0
  {
    if node >= |nodes| then 0
    else
      match nodes[node]
      case Pred(p) => if p < |pool| then PredicateCost(pool[p]) else 0
      case Not(child) => CostAll(nodes, pool, node, [child], 6)
      case Or(children) => CostAll(nodes, pool, node, children, 5)
      case And(children, _) => CostAll(nodes, pool, node, children, 5)
  }

  function CostAll(nodes: seq<E.Node>, pool: seq<Predicate>, bound: nat, cs: seq<nat>, cost: nat): nat
    decreases bound, 0, |cs|
  {
    if cs == [] then cost
    else
      var c := if cs[0] < bound then ExprCost(nodes, pool, cs[0]) else cost;
      CostAll(nodes, pool, bound, cs[1..], if c < cost then c else cost)
  }

  function CostLess(nodes: seq<E.Node>, pool: seq<Predicate>): (nat, nat) -> bool {
    (a: nat, b: nat) => ExprCost(nodes, pool, a) < ExprCost(nodes, pool, b)
  }

  /** The comparison of the evaluation order: column, then cost, then pool index. */
  function OrderLess(pool: seq<Predicate>): (nat, nat) -> bool {
    (a: nat, b: nat) =>
      if a >= |pool| || b >= |pool| then a < b
      else
        var ca, cb := PredicateColumn(pool[a]), PredicateColumn(pool[b]);
        var pa, pb := PredicateCost(pool[a]), PredicateCost(pool[b]);
        if ca != cb then ca < cb else if pa != pb then pa < pb else a < b
  }

  // ---- Plans and programs ----------------------------------------------------------------------------------

  /** What a plan node says about the operation it was built from. */
  ghost predicate NodeFor(node: E.Node, op: Op, pool: seq<Predicate>) {
    match op
    case PredOp(p, _) => node.Pred? && node.p < |pool| && Key(pool[node.p]) == Key(p)
    case AndOp(inputs, _) => node.And? && node.original == inputs && multiset(node.children) == multiset(inputs)
    case OrOp(inputs, _) => node == E.Or(inputs)
    case NotOp(input, _) => node == E.Not(input)
  }

  /** Node i is built from operation i. */
  ghost predicate PlanFor(plan: E.Plan, program: Program, pool: seq<Predicate>) {
    && plan.root == program.final
    && |plan.nodes| == |program.ops|
    && NodesFor(plan.nodes, program.ops, pool)
    && CostOrdered(plan.nodes, pool)
  }

  /** The children of every AND in ascending cost. */
  ghost predicate CostOrdered(nodes: seq<E.Node>, pool: seq<Predicate>) {
    forall n | 0 <= n < |nodes| && nodes[n].And? :: SortedBy(nodes[n].children, CostLess(nodes, pool))
  }

  /** Nodes that name entries of the pool and earlier nodes only. */
  ghost predicate Inside(nodes: seq<E.Node>, pool: seq<Predicate>) {
    forall n: nat | n < |nodes| :: NodeInside(nodes[n], n, pool)
  }

  ghost predicate NodeInside(node: E.Node, n: nat, pool: seq<Predicate>) {
    match node
    case Pred(p) => p < |pool|
    case And(children, _) => E.Below(children, n)
    case Or(children) => E.Below(children, n)
    case Not(child) => child < n
  }

  /** A node keeps its cost while nodes and predicates are added. */
  lemma {:induction false} CostGrows(nodes: seq<E.Node>, more: seq<E.Node>, pool: seq<Predicate>, morePool: seq<Predicate>, n: nat)
    requires nodes <= more && pool <= morePool && Inside(nodes, pool) && n < |nodes|
    ensures ExprCost(more, morePool, n) == ExprCost(nodes, pool, n)
    decreases n, 1, 0
  {
    match nodes[n]
    case Pred(p) =>
    case Not(child) => CostsGrow(nodes, more, pool, morePool, n, [child], 6);
    case Or(children) => CostsGrow(nodes, more, pool, morePool, n, children, 5);
    case And(children, _) => CostsGrow(nodes, more, pool, morePool, n, children, 5);
  }

  lemma {:induction false} CostsGrow(nodes: seq<E.Node>, more: seq<E.Node>, pool: seq<Predicate>, morePool: seq<Predicate>,
                                     n: nat, cs: seq<nat>, cost: nat)
    requires nodes <= more && pool <= morePool && Inside(nodes, pool) && n < |nodes| && E.Below(cs, n)
    ensures CostAll(more, morePool, n, cs, cost) == CostAll(nodes, pool, n, cs, cost)
    decreases n, 0, |cs|
  {
    if cs != [] {
      CostGrows(nodes, more, pool, morePool, cs[0]);
      var c := ExprCost(nodes, pool, cs[0]);
      CostsGrow(nodes, more, pool, morePool, n, cs[1..], if c < cost then c else cost);
    }
  }

  lemma OrderGrows(nodes: seq<E.Node>, more: seq<E.Node>, pool: seq<Predicate>, morePool: seq<Predicate>, xs: seq<nat>)
    requires nodes <= more && pool <= morePool && Inside(nodes, pool) && E.Below(xs, |nodes|)
    requires SortedBy(xs, CostLess(nodes, pool))
    ensures SortedBy(xs, CostLess(more, morePool))
  {
    hide Inside, ExprCost;
    forall i, j | 0 <= i < j < |xs| ensures !CostLess(more, morePool)(xs[j], xs[i]) {
      CostGrows(nodes, more, pool, morePool, xs[i]);
      CostGrows(nodes, more, pool, morePool, xs[j]);
    }
  }

  lemma NodesInside(nodes: seq<E.Node>, ops: seq<Op>, pool: seq<Predicate>)
    requires NodesFor(nodes, ops, pool) && Numbered(ops)
    ensures Inside(nodes, pool)
  {
    forall n: nat | n < |nodes|
      ensures NodeInside(nodes[n], n, pool)
    {
      assert NodeFor(nodes[n], ops[n], pool) && E.Below(Inputs(ops[n]), n);
      match ops[n] {
        case AndOp(inputs, _) =>
          forall k | 0 <= k < |nodes[n].children| ensures nodes[n].children[k] < n {
            assert nodes[n].children[k] in multiset(nodes[n].children);
            assert nodes[n].children[k] in multiset(inputs);
          }
        case NotOp(input, _) => assert Inputs(ops[n])[0] == input;
        case _ =>
      }
    }
  }

  /** Adding a node, and the predicate it may bring, keeps every AND sorted. */
  lemma CostOrderGrows(nodes: seq<E.Node>, ops: seq<Op>, node: E.Node, pool: seq<Predicate>, morePool: seq<Predicate>)
    requires NodesFor(nodes, ops, pool) && Numbered(ops) && pool <= morePool && CostOrdered(nodes, pool)
    requires |nodes| < |ops| && NodeFor(node, ops[|nodes|], morePool)
    requires node.And? ==> pool == morePool && SortedBy(node.children, CostLess(nodes, pool))
    ensures CostOrdered(nodes + [node], morePool)
  {
    hide NodesFor, CostLess, SortedBy;
    var more := nodes + [node];
    NodesInside(nodes, ops, pool);
    forall n | 0 <= n < |more| && more[n].And? ensures SortedBy(more[n].children, CostLess(more, morePool)) {
      if n < |nodes| {
        assert nodes[n] == more[n];
        assert E.Below(nodes[n].children, n);
      } else {
        NodesGrow(nodes, ops, pool, morePool);
        AndBelow(node, ops, pool);
      }
      OrderGrows(nodes, more, pool, morePool, more[n].children);
    }
  }

  lemma AndBelow(node: E.Node, ops: seq<Op>, pool: seq<Predicate>)
    requires Numbered(ops) && node.And?
    ensures forall n: nat | n < |ops| && NodeFor(node, ops[n], pool) :: E.Below(node.children, n)
  {
    forall n: nat | n < |ops| && NodeFor(node, ops[n], pool) ensures E.Below(node.children, n) {
      assert E.Below(Inputs(ops[n]), n);
      forall k | 0 <= k < |node.children| ensures node.children[k] < n {
        assert node.children[k] in multiset(node.children);
        assert node.children[k] in multiset(ops[n].inputs);
      }
    }
  }

  /** The key index and the pool it describes: one entry per distinct key. */
  ghost predicate Indexed(ids: map<string, nat>, pool: seq<Predicate>) {
    && (forall key: string | key in ids :: ids[key] < |pool| && Key(pool[ids[key]]) == key)
    && (forall p: nat | p < |pool| :: Key(pool[p]) in ids && ids[Key(pool[p])] == p)
  }

  ghost predicate Distinct(pool: seq<Predicate>) {
    forall a: nat, b: nat | a < b < |pool| :: Key(pool[a]) != Key(pool[b])
  }

  // ---- The pool --------------------------------------------------------------------------------------------

  /** Some operation of the program is this predicate. */
  ghost predicate Asks(ops: seq<Op>, p: Predicate) {
    exists i :: 0 <= i < |ops| && ops[i].PredOp? && ops[i].p == p
  }

  predicate HasKey(pool: seq<Predicate>, key: string) {
    exists k :: 0 <= k < |pool| && Key(pool[k]) == key
  }

  /** The pool after an operation: the first predicate with a key stays, later ones share it. */
  function PoolWith(pool: seq<Predicate>, op: Op): (more: seq<Predicate>)
    ensures pool <= more
  {
    if op.PredOp? && !HasKey(pool, Key(op.p)) then pool + [op.p] else pool
  }

  function PoolAfter(pool: seq<Predicate>, ops: seq<Op>): (more: seq<Predicate>)
    ensures pool <= more
  {
    if ops == [] then pool else PoolWith(PoolAfter(pool, ops[..|ops| - 1]), ops[|ops| - 1])
  }

  /** The pool of some rules, in rule order. */
  function PoolOf(programs: seq<Program>): seq<Predicate> {
    if programs == [] then []
    else PoolAfter(PoolOf(programs[..|programs| - 1]), programs[|programs| - 1].ops)
  }

  lemma {:induction false} PoolAfterAsked(pool: seq<Predicate>, ops: seq<Op>, p: Predicate)
    requires p in PoolAfter(pool, ops)
    ensures p in pool || Asks(ops, p)
  {
    if ops != [] {
      var front, op := ops[..|ops| - 1], ops[|ops| - 1];
      if p in PoolAfter(pool, front) {
        PoolAfterAsked(pool, front, p);
        if p !in pool {
          var i :| 0 <= i < |front| && front[i].PredOp? && front[i].p == p;
          assert ops[i] == front[i];
        }
      } else {
        assert op.PredOp? && op.p == p;
      }
    }
  }

  /** Every pool entry is a predicate of some rule. */
  lemma {:induction false} PoolAsked(programs: seq<Program>, p: Predicate)
    requires p in PoolOf(programs)
    ensures exists r :: 0 <= r < |programs| && Asks(programs[r].ops, p)
  {
    var front, last := programs[..|programs| - 1], programs[|programs| - 1];
    PoolAfterAsked(PoolOf(front), last.ops, p);
    if p in PoolOf(front) {
      PoolAsked(front, p);
      var r :| 0 <= r < |front| && Asks(front[r].ops, p);
      assert programs[r] == front[r];
    }
  }

  // ---- Building ----------------------------------------------------------------------------------------

  /** The sharing of one predicate: its pool index, new or existing. */
  method Share(p: Predicate, ids: map<string, nat>, pool: seq<Predicate>)
    returns (id: nat, newIds: map<string, nat>, newPool: seq<Predicate>)
    requires Indexed(ids, pool)
    ensures Indexed(newIds, newPool)
    ensures id < |newPool| && Key(newPool[id]) == Key(p)
    ensures newPool == PoolWith(pool, PredOp(p, 0))
  {
    var key := Key(p);
    if key in ids {
      return ids[key], ids, pool;
    }
    id := |pool|;
    newIds, newPool := ids[key := id], pool + [p];
  }

  /** The node for operation i. */
  method BuildNode(op: Op, i: nat, nodes: seq<E.Node>, registerNode: seq<int>, ids: map<string, nat>, pool: seq<Predicate>)
    returns (node: E.Node, newIds: map<string, nat>, newPool: seq<Predicate>)
    requires Indexed(ids, pool) && E.Below(Inputs(op), i)
    requires i <= |registerNode| && forall r | 0 <= r < i :: registerNode[r] == r
    ensures Indexed(newIds, newPool) && newPool == PoolWith(pool, op)
    ensures NodeFor(node, op, newPool)
    ensures node.And? ==> SortedBy(node.children, CostLess(nodes, newPool))
  {
    newIds, newPool := ids, pool;
    match op {
      case PredOp(p, _) =>
        var id;
        id, newIds, newPool := Share(p, ids, pool);
        node := E.Pred(id);
      case AndOp(inputs, _) =>
        var children := MapRegisters(registerNode, inputs, i);
        node := E.And(Sorted(children, CostLess(nodes, newPool)), children);
        SortedIsSorted(children, CostLess(nodes, newPool));
      case OrOp(inputs, _) =>
        var children := MapRegisters(registerNode, inputs, i);
        node := E.Or(children);
      case NotOp(input, _) =>
        assert Inputs(op)[0] == input;
        node := E.Not(registerNode[input]);
    }
  }

  ghost predicate NodesFor(nodes: seq<E.Node>, ops: seq<Op>, pool: seq<Predicate>) {
    |nodes| <= |ops| && forall k | 0 <= k < |nodes| :: NodeFor(nodes[k], ops[k], pool)
  }

  lemma NodesGrow(nodes: seq<E.Node>, ops: seq<Op>, pool: seq<Predicate>, more: seq<Predicate>)
    requires NodesFor(nodes, ops, pool) && pool <= more
    ensures NodesFor(nodes, ops, more)
  {
    forall k | 0 <= k < |nodes| ensures NodeFor(nodes[k], ops[k], more) {
      assert NodeFor(nodes[k], ops[k], pool);
    }
  }

  lemma AddNode(nodes: seq<E.Node>, ops: seq<Op>, node: E.Node, pool: seq<Predicate>, morePool: seq<Predicate>)
    requires NodesFor(nodes, ops, pool) && Numbered(ops) && CostOrdered(nodes, pool) && |nodes| < |ops|
    requires morePool == PoolWith(pool, ops[|nodes|]) && NodeFor(node, ops[|nodes|], morePool)
    requires node.And? ==> SortedBy(node.children, CostLess(nodes, morePool))
    ensures NodesFor(nodes + [node], ops, morePool) && CostOrdered(nodes + [node], morePool)
  {
    hide CostOrdered, SortedBy, CostLess;
    CostOrderGrows(nodes, ops, node, pool, morePool);
    NodesGrow(nodes, ops, pool, morePool);
  }

  method BuildPlan(program: Program, ids: map<string, nat>, pool: seq<Predicate>)
    returns (plan: E.Plan, newIds: map<string, nat>, newPool: seq<Predicate>)
    requires Indexed(ids, pool) && Numbered(program.ops) && program.final < |program.ops|
    ensures Indexed(newIds, newPool) && newPool == PoolAfter(pool, program.ops)
    ensures PlanFor(plan, program, newPool)
  {
    hide NodeFor, PoolWith, SortedBy, CostLess, Indexed;
    var nodes: seq<E.Node> := [];
    var registerNode: seq<int> := seq(|program.ops|, _ => -1);
    newIds, newPool := ids, pool;
    for i := 0 to |program.ops|
      invariant Indexed(newIds, newPool) && newPool == PoolAfter(pool, program.ops[..i])
      invariant |nodes| == i && |registerNode| == |program.ops|
      invariant forall r | 0 <= r < i :: registerNode[r] == r
      invariant NodesFor(nodes, program.ops, newPool) && CostOrdered(nodes, newPool)
    {
      var op := program.ops[i];
      ghost var before := newPool;
      var node;
      node, newIds, newPool := BuildNode(op, i, nodes, registerNode, newIds, newPool);
      assert program.ops[..i + 1][..i] == program.ops[..i];
      AddNode(nodes, program.ops, node, before, newPool);
      registerNode := registerNode[op.output := i];
      nodes := nodes + [node];
    }
    assert program.ops[..|program.ops|] == program.ops;
    plan := E.Plan(nodes, registerNode[program.final]);
  }

  /** `for (int reg : inputs) children.push_back(register_node[reg])`. */
  method MapRegisters(registerNode: seq<int>, inputs: seq<nat>, bound: nat) returns (children: seq<nat>)
    requires bound <= |registerNode| && E.Below(inputs, bound)
    requires forall r | 0 <= r < bound :: registerNode[r] == r
    ensures children == inputs
  {
    children := [];
    for k := 0 to |inputs|
      invariant children == inputs[..k]
    {
      children := children + [registerNode[inputs[k]]];
    }
  }

  method BuildGlobalPlan(programs: seq<Program>)
    returns (pool: seq<Predicate>, plans: seq<E.Plan>, order: seq<nat>)
    requires forall r | 0 <= r < |programs| :: Numbered(programs[r].ops) && programs[r].final < |programs[r].ops|
    ensures Distinct(pool) && pool == PoolOf(programs)
    ensures |plans| == |programs| && forall r | 0 <= r < |plans| :: PlanFor(plans[r], programs[r], pool)
    ensures multiset(order) == multiset(seq(|pool|, i => i)) && SortedBy(order, OrderLess(pool))
  {
    hide PlanFor, Numbered, Indexed, Distinct, PoolAfter, SortedBy, OrderLess;
    var ids: map<string, nat> := map[];
    NothingIndexed();
    pool, plans := [], [];
    for r := 0 to |programs|
      invariant Indexed(ids, pool) && pool == PoolOf(programs[..r]) && |plans| == r
      invariant forall k | 0 <= k < r :: PlanFor(plans[k], programs[k], pool)
    {
      ghost var before := pool;
      var plan;
      plan, ids, pool := BuildPlan(programs[r], ids, pool);
      assert programs[..r + 1][..r] == programs[..r];
      forall k | 0 <= k < r ensures PlanFor(plans[k], programs[k], pool) {
        PlanGrows(plans[k], programs[k], before, pool);
      }
      plans := plans + [plan];
    }
    assert programs[..|programs|] == programs;
    IndexedDistinct(ids, pool);
    order := EvalOrder(pool);
  }

  /** The price of each kind. */
  lemma CostSays(p: Predicate)
    ensures PredicateCost(p) == 1 <==> p.Categorical? || p.ArrayLen? || p.NullTest? || p.Bitfield?
    ensures PredicateCost(p) == 2 <==> p.Numeric? || p.CrossField? || p.Temporal?
    ensures PredicateCost(p) == 3 <==> p.Cidr? || p.Lookup? || p.Range?
    ensures PredicateCost(p) == 4 <==> p.Window?
    ensures PredicateCost(p) == 5 <==> p.Str? || p.Arithmetic?
    ensures PredicateCost(p) == 6 <==> p.Regex? || p.Geo?
  {
  }

  /** The column a predicate is sorted by: an arithmetic one by that of its last node, or by the column it is compared
      with where that node reads none. */
  lemma ColumnSays(p: Predicate)
    ensures !p.Arithmetic? ==> PredicateColumn(p) == p.col
    ensures p.Arithmetic? && p.nodes != [] && p.nodes[|p.nodes| - 1].col >= 0 ==> PredicateColumn(p) == p.nodes[|p.nodes| - 1].col
    ensures p.Arithmetic? && (p.nodes == [] || p.nodes[|p.nodes| - 1].col < 0) ==> PredicateColumn(p) == p.other
  {
  }

  /** Of two predicates the one on the lower column is evaluated first, on one column the cheaper one, at one price the
      one used first. */
  lemma OrderSays(pool: seq<Predicate>, order: seq<nat>, i: nat, j: nat)
    requires multiset(order) == multiset(seq(|pool|, k => k)) && SortedBy(order, OrderLess(pool)) && i < j < |order|
    ensures order[i] < |pool| && order[j] < |pool| && order[i] != order[j]
    ensures var p, q := pool[order[i]], pool[order[j]];
            && PredicateColumn(p) <= PredicateColumn(q)
            && (PredicateColumn(p) == PredicateColumn(q) ==> PredicateCost(p) <= PredicateCost(q))
            && (PredicateColumn(p) == PredicateColumn(q) && PredicateCost(p) == PredicateCost(q) ==> order[i] < order[j])
  {
    hide PredicateColumn, PredicateCost;
    var all := seq(|pool|, k => k);
    assert order[i] in multiset(order) && order[j] in multiset(order);
    assert order[i] in all && order[j] in all;
    OnceEach(all, order, i, j);
  }

  lemma OnceEach(all: seq<nat>, order: seq<nat>, i: nat, j: nat)
    requires multiset(order) == multiset(all) && (forall k | 0 <= k < |all| :: all[k] == k) && i < j < |order|
    ensures order[i] != order[j]
  {
    if order[i] == order[j] {
      var x := order[i];
      assert order == order[..j] + order[j..];
      assert x == order[..j][i] && x == order[j..][0];
      assert multiset(order)[x] == multiset(order[..j])[x] + multiset(order[j..])[x] >= 2;
      AtMostOnce(all, x);
    }
  }

  lemma {:induction false} AtMostOnce(all: seq<nat>, x: nat)
    requires forall k | 0 <= k < |all| :: all[k] == k
    ensures multiset(all)[x] <= 1
    ensures multiset(all)[x] == 1 ==> x < |all|
  {
    if all != [] {
      var last := |all| - 1;
      assert all == all[..last] + [all[last]];
      AtMostOnce(all[..last], x);
    }
  }

  /** `predicate_eval_order`: every pool index once, sorted. */
  method EvalOrder(pool: seq<Predicate>) returns (order: seq<nat>)
    ensures multiset(order) == multiset(seq(|pool|, i => i)) && SortedBy(order, OrderLess(pool))
  {
    order := Sorted(seq(|pool|, i => i), OrderLess(pool));
    SortedIsSorted(seq(|pool|, i => i), OrderLess(pool));
  }

  lemma NothingIndexed()
    ensures Indexed(map[], [])
  {
  }

  lemma IndexedDistinct(ids: map<string, nat>, pool: seq<Predicate>)
    requires Indexed(ids, pool)
    ensures Distinct(pool)
  {
    forall a: nat, b: nat | a < b < |pool| ensures Key(pool[a]) != Key(pool[b]) {
      assert ids[Key(pool[a])] == a && ids[Key(pool[b])] == b;
    }
  }

  lemma PlanGrows(plan: E.Plan, program: Program, pool: seq<Predicate>, more: seq<Predicate>)
    requires PlanFor(plan, program, pool) && pool <= more && Numbered(program.ops)
    ensures PlanFor(plan, program, more)
  {
    NodesGrow(plan.nodes, program.ops, pool, more);
    NodesInside(plan.nodes, program.ops, pool);
    hide NodesFor, CostLess;
    forall n | 0 <= n < |plan.nodes| && plan.nodes[n].And? ensures SortedBy(plan.nodes[n].children, CostLess(plan.nodes, more)) {
      assert E.Below(plan.nodes[n].children, n);
      OrderGrows(plan.nodes, plan.nodes, pool, more, plan.nodes[n].children);
    }
  }
}
