/** When a compiled rule is evaluated exactly, setting by setting: `EvalSettings` on plans and `PlanShape` on
    condition trees, over rows instead of masks. */
module RuleExactness {
  import opened Predicates
  import opened RuleCompiler
  import opened GlobalPlan
  import opened RulePipeline
  import opened RuleSet
  import opened PlanShape
  import opened CostShape
  import opened EvalSettings
  import opened Morsels
  import PredicateKey
  import E = EvalPlan
  import T = EvalTree
  import X = EvalExactness

  // ---- A plan reads no predicate twice -------------------------------------------------------------------------

  /** No two predicate nodes share a pool entry. */
  ghost predicate NoSharing(plan: E.Plan) {
    forall m: nat, n: nat | m < n < |plan.nodes| && plan.nodes[m].Pred? && plan.nodes[n].Pred? ::
      plan.nodes[m].p != plan.nodes[n].p
  }

  /** Leaf p is a node in the block under a node. */
  ghost predicate LeafIn(plan: E.Plan, adaptive: bool, p: nat, node: nat)
    requires E.WellFormed(plan, adaptive) && node < |plan.nodes|
  {
    exists m: nat :: E.InBlock(plan, adaptive, m, node) && plan.nodes[m] == E.Pred(p)
  }

  lemma {:induction false} LeavesInBlock(plan: E.Plan, adaptive: bool, node: nat)
    requires E.WellFormed(plan, adaptive) && node < |plan.nodes|
    ensures forall p | p in X.Leaves(E.Decode(plan, adaptive, node)) :: LeafIn(plan, adaptive, p, node)
    decreases node, 1, 0
  {
    var cs := E.Chosen(plan.nodes[node], adaptive);
    match plan.nodes[node]
    case Pred(p) => assert E.InBlock(plan, adaptive, node, node);
    case Not(child) =>
      assert cs[0] == child;
      LeavesInBlock(plan, adaptive, child);
      Within(plan, adaptive, node, 0);
    case Or(_) => LeavesInBlocks(plan, adaptive, node, cs); WithinAll(plan, adaptive, node);
    case And(_, _) => LeavesInBlocks(plan, adaptive, node, cs); WithinAll(plan, adaptive, node);
  }

  lemma Within(plan: E.Plan, adaptive: bool, node: nat, k: nat)
    requires E.WellFormed(plan, adaptive) && node < |plan.nodes| && k < |E.Chosen(plan.nodes[node], adaptive)|
    ensures forall p: nat | LeafIn(plan, adaptive, p, E.Chosen(plan.nodes[node], adaptive)[k]) :: LeafIn(plan, adaptive, p, node)
  {
    var child := E.Chosen(plan.nodes[node], adaptive)[k];
    forall p: nat | LeafIn(plan, adaptive, p, child) ensures LeafIn(plan, adaptive, p, node) {
      var m: nat :| E.InBlock(plan, adaptive, m, child) && plan.nodes[m] == E.Pred(p);
      assert E.InBlock(plan, adaptive, m, node);
    }
  }

  lemma WithinAll(plan: E.Plan, adaptive: bool, node: nat)
    requires E.WellFormed(plan, adaptive) && node < |plan.nodes|
    ensures forall p: nat, k: nat | k < |E.Chosen(plan.nodes[node], adaptive)| ::
              LeafIn(plan, adaptive, p, E.Chosen(plan.nodes[node], adaptive)[k]) ==> LeafIn(plan, adaptive, p, node)
  {
    hide LeafIn;
    forall k: nat | k < |E.Chosen(plan.nodes[node], adaptive)| { Within(plan, adaptive, node, k); }
  }

  /** The leaf lies in one of the blocks. */
  ghost predicate LeafInSome(plan: E.Plan, adaptive: bool, p: nat, cs: seq<nat>)
    requires E.WellFormed(plan, adaptive) && E.Below(cs, |plan.nodes|)
  {
    exists k: nat :: k < |cs| && LeafIn(plan, adaptive, p, cs[k])
  }

  lemma {:induction false} LeavesInBlocks(plan: E.Plan, adaptive: bool, bound: nat, cs: seq<nat>)
    requires E.WellFormed(plan, adaptive) && bound <= |plan.nodes| && E.Below(cs, bound)
    ensures forall p | p in X.LeavesAll(E.DecodeAll(plan, adaptive, bound, cs)) :: LeafInSome(plan, adaptive, p, cs)
    decreases bound, 0, |cs|
  {
    if cs != [] {
      var ds := E.DecodeAll(plan, adaptive, bound, cs);
      assert ds[1..] == E.DecodeAll(plan, adaptive, bound, cs[1..]);
      LeavesInBlock(plan, adaptive, cs[0]);
      LeavesInBlocks(plan, adaptive, bound, cs[1..]);
      forall p | p in X.LeavesAll(ds) ensures LeafInSome(plan, adaptive, p, cs) {
        if p in X.Leaves(ds[0]) {
          assert LeafIn(plan, adaptive, p, cs[0]);
        } else {
          assert LeafInSome(plan, adaptive, p, cs[1..]);
          var k: nat :| k < |cs[1..]| && LeafIn(plan, adaptive, p, cs[1..][k]);
          assert LeafIn(plan, adaptive, p, cs[k + 1]);
        }
      }
    }
  }

  /** Blocks that lie apart hold different leaves. */
  lemma ApartLeaves(plan: E.Plan, adaptive: bool, a: nat, b: nat, p: nat)
    requires E.WellFormed(plan, adaptive) && NoSharing(plan) && a < |plan.nodes| && b < |plan.nodes|
    requires E.Apart(plan, adaptive, a, b) && LeafIn(plan, adaptive, p, a)
    ensures !LeafIn(plan, adaptive, p, b)
  {
    var m: nat :| E.InBlock(plan, adaptive, m, a) && plan.nodes[m] == E.Pred(p);
    forall n: nat | E.InBlock(plan, adaptive, n, b) ensures plan.nodes[n] != E.Pred(p) {
      assert m != n;
    }
  }

  lemma {:induction false} TreeReadsOnce(plan: E.Plan, adaptive: bool, node: nat)
    requires E.WellFormed(plan, adaptive) && NoSharing(plan) && node < |plan.nodes| && E.TreeShaped(plan, adaptive, node)
    ensures X.ReadOnce(E.Decode(plan, adaptive, node))
    decreases node, 1, 0
  {
    hide NoSharing;
    var cs := E.Chosen(plan.nodes[node], adaptive);
    match plan.nodes[node]
    case Pred(p) =>
    case Not(child) => assert cs[0] == child; TreeReadsOnce(plan, adaptive, child);
    case Or(_) => TreesReadOnce(plan, adaptive, node, cs);
    case And(_, _) => TreesReadOnce(plan, adaptive, node, cs);
  }

  lemma {:induction false} TreesReadOnce(plan: E.Plan, adaptive: bool, bound: nat, cs: seq<nat>)
    requires E.WellFormed(plan, adaptive) && NoSharing(plan) && bound <= |plan.nodes| && E.Below(cs, bound)
    requires forall k | 0 <= k < |cs| :: E.TreeShaped(plan, adaptive, cs[k])
    requires forall k, l | 0 <= k < l < |cs| :: E.Apart(plan, adaptive, cs[k], cs[l])
    ensures X.ReadOnceAll(E.DecodeAll(plan, adaptive, bound, cs))
    decreases bound, 0, |cs|
  {
    hide NoSharing, E.Apart, LeafIn;
    if cs != [] {
      var ds := E.DecodeAll(plan, adaptive, bound, cs);
      assert ds[1..] == E.DecodeAll(plan, adaptive, bound, cs[1..]);
      TreeReadsOnce(plan, adaptive, cs[0]);
      TreesReadOnce(plan, adaptive, bound, cs[1..]);
      LeavesInBlock(plan, adaptive, cs[0]);
      LeavesInBlocks(plan, adaptive, bound, cs[1..]);
      forall p | p in X.Leaves(ds[0]) ensures p !in X.LeavesAll(ds[1..]) {
        if p in X.LeavesAll(ds[1..]) {
          assert LeafInSome(plan, adaptive, p, cs[1..]);
          var k: nat :| k < |cs[1..]| && LeafIn(plan, adaptive, p, cs[1..][k]);
          assert E.Apart(plan, adaptive, cs[0], cs[k + 1]);
          ApartLeaves(plan, adaptive, cs[0], cs[k + 1], p);
        }
      }
    }
  }

  // ---- Rows with any masks -------------------------------------------------------------------------------------

  /** What may stand in a column. */
  type Table = (int, Cell) -> bool

  ghost predicate Fits(cells: Table, row: Row) {
    forall col :: cells(col, row(col))
  }

  /** With this cell in its one column the predicate gives this answer, whatever else the row holds. */
  ghost predicate Answers(w: World, p: Predicate, cell: Cell, answer: bool)
    requires !p.Arithmetic?
  {
    forall row: Row | row(p.col) == cell :: Holds(w, p, row) == answer
  }

  /** Some cell of its column satisfies the predicate and some does not. */
  ghost predicate Open(w: World, cells: Table, p: Predicate) {
    !p.Arithmetic? && Reaches(w, cells, p, true) && Reaches(w, cells, p, false)
  }

  ghost predicate Reaches(w: World, cells: Table, p: Predicate, answer: bool)
    requires !p.Arithmetic?
  {
    exists cell :: cells(p.col, cell) && Answers(w, p, cell, answer)
  }

  /** The rule's compiled predicates are open, and no two read the same column. */
  ghost predicate Independent(w: World, cells: Table, ops: seq<Op>) {
    && (forall i | 0 <= i < |ops| && ops[i].PredOp? :: Open(w, cells, ops[i].p))
    && (forall i, j | 0 <= i < j < |ops| && ops[i].PredOp? && ops[j].PredOp? :: ops[i].p.col != ops[j].p.col)
  }

  /** The pool entries that the plan's leaves name, all of them operations of the program. */
  ghost predicate Named(s: Setup, leaves: set<nat>) {
    forall p | p in leaves :: exists n: nat :: Names(s, n, p)
  }

  ghost predicate Names(s: Setup, n: nat, p: nat) {
    && n < |s.program.ops| && s.program.ops[n].PredOp? && n < |s.plan.nodes| && s.plan.nodes[n] == E.Pred(p)
    && p < |s.pool| && s.pool[p] == s.program.ops[n].p
  }

  lemma LeavesNamed(s: Setup)
    requires s.Ok()
    ensures E.WellFormed(s.plan, s.adaptive) && Named(s, X.Leaves(E.Decode(s.plan, s.adaptive, s.plan.root)))
  {
    LeavesInBlock(s.plan, s.adaptive, s.plan.root);
    forall p | p in X.Leaves(E.Decode(s.plan, s.adaptive, s.plan.root))
      ensures exists n: nat :: Names(s, n, p)
    {
      assert LeafIn(s.plan, s.adaptive, p, s.plan.root);
      var m: nat :| E.InBlock(s.plan, s.adaptive, m, s.plan.root) && s.plan.nodes[m] == E.Pred(p);
      assert s.IsNode(s.plan.nodes[m], s.program.ops[m], m);
      assert Names(s, m, p);
    }
  }

  lemma NothingShared(s: Setup, cells: Table)
    requires s.Ok() && Independent(s.w, cells, s.program.ops)
    ensures NoSharing(s.plan)
  {
    forall m: nat, n: nat | m < n < |s.plan.nodes| && s.plan.nodes[m].Pred? && s.plan.nodes[n].Pred?
      ensures s.plan.nodes[m].p != s.plan.nodes[n].p
    {
      assert s.IsNode(s.plan.nodes[m], s.program.ops[m], m) && s.IsNode(s.plan.nodes[n], s.program.ops[n], n);
    }
  }

  /** The leaves are open pool entries on columns of their own. */
  ghost predicate OpenLeaves(w: World, cells: Table, pool: seq<Predicate>, leaves: set<nat>) {
    && (forall p | p in leaves :: p < |pool| && Open(w, cells, pool[p]))
    && (forall p, q | p in leaves && q in leaves && p != q :: pool[p].col != pool[q].col)
  }

  lemma LeavesOpen(s: Setup, cells: Table, leaves: set<nat>)
    requires s.Ok() && Named(s, leaves) && Independent(s.w, cells, s.program.ops)
    ensures OpenLeaves(s.w, cells, s.pool, leaves)
  {
    hide Open, Setup.IsNode;
    forall p, q | p in leaves && q in leaves && p != q
      ensures p < |s.pool| && Open(s.w, cells, s.pool[p]) && q < |s.pool| && Open(s.w, cells, s.pool[q])
      ensures !s.pool[p].Arithmetic? && !s.pool[q].Arithmetic? && s.pool[p].col != s.pool[q].col
    {
      var m: nat :| Names(s, m, p);
      var n: nat :| Names(s, n, q);
      assert m != n;
      OpenHasColumn(s.w, cells, s.pool[p]);
      OpenHasColumn(s.w, cells, s.pool[q]);
    }
  }

  lemma OpenHasColumn(w: World, cells: Table, p: Predicate)
    requires Open(w, cells, p)
    ensures !p.Arithmetic?
  {
  }

  /** A row of the table on which exactly the wanted leaves hold. */
  ghost predicate Hits(w: World, cells: Table, pool: seq<Predicate>, leaves: set<nat>, want: set<nat>, row: Row)
    requires forall p | p in leaves :: p < |pool|
  {
    Fits(cells, row) && forall p | p in leaves :: Holds(w, pool[p], row) == (p in want)
  }

  /** One leaf after the other gets the cell that answers as wanted; the columns do not interfere. */
  lemma {:induction false} RowExists(w: World, cells: Table, pool: seq<Predicate>, leaves: set<nat>, want: set<nat>, rest: Row)
    returns (row: Row)
    requires OpenLeaves(w, cells, pool, leaves) && Fits(cells, rest)
    ensures Hits(w, cells, pool, leaves, want, row)
    ensures forall col | (forall p | p in leaves :: pool[p].col != col) :: row(col) == rest(col)
    ensures forall p | p in leaves :: Answers(w, pool[p], row(pool[p].col), p in want)
    decreases |leaves|
  {
    if leaves == {} {
      row := rest;
    } else {
      var p :| p in leaves;
      var others := RowExists(w, cells, pool, leaves - {p}, want, rest);
      row := OneCell(w, cells, pool[p], p in want, others);
      forall q | q in leaves ensures Answers(w, pool[q], row(pool[q].col), q in want) {
        if q != p { assert q in leaves - {p}; }
      }
      AnswersHold(w, cells, pool, leaves, want, row);
    }
  }

  lemma OneCell(w: World, cells: Table, p: Predicate, answer: bool, rest: Row) returns (row: Row)
    requires Open(w, cells, p) && Fits(cells, rest)
    ensures Fits(cells, row) && Answers(w, p, row(p.col), answer) && forall col | col != p.col :: row(col) == rest(col)
  {
    assert Reaches(w, cells, p, answer);
    var cell :| cells(p.col, cell) && Answers(w, p, cell, answer);
    row := c => if c == p.col then cell else rest(c);
  }

  lemma AnswersHold(w: World, cells: Table, pool: seq<Predicate>, leaves: set<nat>, want: set<nat>, row: Row)
    requires OpenLeaves(w, cells, pool, leaves) && Fits(cells, row)
    requires forall p | p in leaves :: Answers(w, pool[p], row(pool[p].col), p in want)
    ensures Hits(w, cells, pool, leaves, want, row)
  {
    hide Holds;
  }

  /** Rows of the table whose predicate masks are the given ones. */
  lemma {:induction false} RowsExist(w: World, cells: Table, pool: seq<Predicate>, a: X.Masks, m: nat, rest: Row, k: nat)
    returns (rows: seq<Row>)
    requires OpenLeaves(w, cells, pool, a.Keys) && Fits(cells, rest) && X.Sized(a, m) && k <= m
    ensures |rows| == k && forall i | 0 <= i < k :: Fits(cells, rows[i]) && forall p | p in a :: Holds(w, pool[p], rows[i]) == a[p][i]
    decreases k
  {
    if k == 0 {
      rows := [];
    } else {
      rows := RowsExist(w, cells, pool, a, m, rest, k - 1);
      var want := set p | p in a && a[p][k - 1];
      var row := RowExists(w, cells, pool, a.Keys, want, rest);
      rows := rows + [row];
    }
  }

  // ---- The condition -------------------------------------------------------------------------------------------

  /** The rule's mask on these rows is its meaning on each of them. */
  ghost predicate Right(c: Cond, k: Compiled, plan: E.Plan, w: World, adaptive: bool, o: T.Options, rows: seq<Row>, leftover: seq<nat>)
    requires E.WellFormed(plan, adaptive)
  {
    var s := Setup(w, plan, adaptive, ProgramOf(c), k.pool, rows);
    E.Run(E.Job(plan, adaptive, s.Env(o)), plan.root, E.Store(map[], leftover)).mask
      == seq(|rows|, i requires 0 <= i < |rows| => Meaning(w, c, rows[i]))
  }

  /** The whole table is evaluated exactly: every morsel of its rows, whatever list was left over. */
  ghost predicate AlwaysRight(c: Cond, k: Compiled, plan: E.Plan, w: World, cells: Table, adaptive: bool, o: T.Options)
    requires E.WellFormed(plan, adaptive)
  {
    forall rows: seq<Row>, leftover: seq<nat> | |rows| <= MORSEL_ROWS && (forall i | 0 <= i < |rows| :: Fits(cells, rows[i])) ::
      Right(c, k, plan, w, adaptive, o, rows, leftover)
  }

  /** On one morsel the evaluator on the plan is the evaluator on its tree, and the rule's meaning the tree's truth. */
  lemma RightIsGo(s: Setup, o: T.Options, c: Cond, leftover: seq<nat>)
    requires s.Ok() && s.program == ProgramOf(c) && NoStuckNegation(c)
    ensures E.WellFormed(s.plan, s.adaptive) && s.plan.root < |s.plan.nodes|
    ensures var e := E.Decode(s.plan, s.adaptive, s.plan.root);
            && E.Run(E.Job(s.plan, s.adaptive, s.Env(o)), s.plan.root, E.Store(map[], leftover)).mask == T.Go(e, s.Env(o), leftover).mask
            && T.Truth(e, s.Env(o)) == seq(|s.rows|, i requires 0 <= i < |s.rows| => Meaning(s.w, c, s.rows[i]))
  {
    hide Emit, Meaning, Setup.IsNode, E.Run, T.Go, E.TreeShaped, T.TruthAt;
    RuleIsTree(s, c);
    E.RunIsGo(E.Job(s.plan, s.adaptive, s.Env(o)), s.plan.root, E.Store(map[], leftover));
    forall i: nat | i < |s.rows| ensures T.TruthAt(E.Decode(s.plan, s.adaptive, s.plan.root), s.Env(o), i) == Meaning(s.w, c, s.rows[i]) {
      RuleTruth(s, o, c, i);
      assert True(s, o, s.plan.root, i) == Meaning(s.w, c, s.rows[i]);
    }
  }

  /** The expression of the rule's plan meets what the exactness theorem asks. */
  lemma PlanReadsOnce(s: Setup, cells: Table, c: Cond)
    requires s.Ok() && s.program == ProgramOf(c) && Filled(c) && Independent(s.w, cells, ProgramOf(c).ops)
    ensures E.WellFormed(s.plan, s.adaptive) && s.plan.root < |s.plan.nodes|
    ensures var e := E.Decode(s.plan, s.adaptive, s.plan.root);
            X.ReadOnce(e) && X.NonEmpty(e) && OpenLeaves(s.w, cells, s.pool, X.Leaves(e))
  {
    hide Emit, Independent, Setup.IsNode, X.ReadOnce, X.NonEmpty, OpenLeaves, E.TreeShaped, Filled, NoSharing, Named;
    RuleIsTree(s, c);
    NothingShared(s, cells);
    TreeReadsOnce(s.plan, s.adaptive, s.plan.root);
    RuleShape(s, c);
    LeavesNamed(s);
    LeavesOpen(s, cells, X.Leaves(E.Decode(s.plan, s.adaptive, s.plan.root)));
  }

  /** Rows of the table on which an unsafe plan goes wrong. */
  lemma RowsGoWrong(s: Setup, cells: Table, c: Cond, o: T.Options, rest: Row) returns (rows: seq<Row>)
    requires s.Ok() && s.program == ProgramOf(c) && NoStuckNegation(c) && Filled(c)
    requires Independent(s.w, cells, ProgramOf(c).ops) && Fits(cells, rest)
    requires 0.0 <= o.fraction <= 1.0 && EverLists(o) && !SafePlan(s.plan, s.adaptive)
    ensures E.WellFormed(s.plan, s.adaptive) && |rows| <= MORSEL_ROWS && forall i | 0 <= i < |rows| :: Fits(cells, rows[i])
    ensures var t := s.(rows := rows);
            E.Run(E.Job(t.plan, t.adaptive, t.Env(o)), t.plan.root, E.Store(map[], [])).mask
              != seq(|rows|, i requires 0 <= i < |rows| => Meaning(s.w, c, rows[i]))
  {
    hide Emit, Independent, Setup.Ok, Setup.IsNode, X.ReadOnce, X.NonEmpty, X.Break, T.Go, T.Safe, E.Run, Meaning, Filled;
    PlanReadsOnce(s, cells, c);
    var e := E.Decode(s.plan, s.adaptive, s.plan.root);
    var a := X.Break(e, Fault(o));
    rows := RowsExist(s.w, cells, s.pool, a, Fault(o).m, rest, Fault(o).m);
    var t := s.(rows := rows);
    SameOk(s, rows);
    MasksHave(t, o, a);
    SettingFails(e, t.Env(o));
    RightIsGo(t, o, c, []);
  }

  lemma SameOk(s: Setup, rows: seq<Row>)
    requires s.Ok()
    ensures s.(rows := rows).Ok()
  {
    var t := s.(rows := rows);
    forall n: nat | n < |t.plan.nodes| ensures t.IsNode(t.plan.nodes[n], t.program.ops[n], n) {
      assert s.IsNode(s.plan.nodes[n], s.program.ops[n], n);
    }
  }

  lemma MasksHave(t: Setup, o: T.Options, a: X.Masks)
    requires X.Sized(a, |t.rows|) && forall p | p in a :: p < |t.pool|
    requires forall i | 0 <= i < |t.rows| :: forall p | p in a :: Holds(t.w, t.pool[p], t.rows[i]) == a[p][i]
    ensures X.Has(t.Env(o), a)
  {
    hide Holds;
    forall p: nat | p in a ensures p in t.Env(o).preds && t.Env(o).preds[p] == a[p] {
      assert |t.Env(o).preds[p]| == |a[p]|;
      assert forall i | 0 <= i < |t.rows| :: t.Env(o).preds[p][i] == Holds(t.w, t.pool[p], t.rows[i]);
    }
  }

  lemma SafeIsRight(cs: seq<Cond>, k: Compiled, r: nat, w: World, cells: Table, adaptive: bool, o: T.Options)
    requires Planned(cs, k) && r < |cs| && forall q | 0 <= q < |cs| :: CleanRule(cs[q])
    requires NoStuckNegation(cs[r]) && 0.0 <= o.fraction && E.WellFormed(k.plans[r], adaptive)
    requires SafePlan(k.plans[r], adaptive) || !EverLists(o)
    ensures AlwaysRight(cs[r], k, k.plans[r], w, cells, adaptive, o)
  {
    forall rows: seq<Row>, leftover: seq<nat> | |rows| <= MORSEL_ROWS && (forall i | 0 <= i < |rows| :: Fits(cells, rows[i]))
      ensures Right(cs[r], k, k.plans[r], w, adaptive, o, rows, leftover)
    {
      hide Emit, Setup.Ok, T.Go, T.Truth, T.Safe, Planned, E.Run, Meaning, NoStuckNegation;
      var s := Setup(w, k.plans[r], adaptive, ProgramOf(cs[r]), k.pool, rows);
      PlannedIsOk(cs, k, r, w, adaptive, rows);
      RightIsGo(s, o, cs[r], leftover);
      if !EverLists(o) { NeverLists(s.Env(o)); }
      T.SafeExact(E.Decode(s.plan, adaptive, s.plan.root), s.Env(o), leftover);
    }
  }

  /** For each setting, each rule of a set whose own tests are open and read columns of their own: every morsel of
      the table is evaluated to the rule's meaning exactly when the plan has no AND inside a later child of an AND,
      or no list of rows is ever made.  In the written order the condition can be read off the rule, and in the order
      of costs it holds where each nested AND is in the one cheapest child (`CostShape.CostShapeIff`). */
  lemma RuleExactIff(cs: seq<Cond>, k: Compiled, r: nat, w: World, cells: Table, adaptive: bool, o: T.Options, rest: Row)
    requires Planned(cs, k) && r < |cs| && forall q | 0 <= q < |cs| :: CleanRule(cs[q])
    requires NoStuckNegation(cs[r]) && Filled(cs[r]) && Independent(w, cells, ProgramOf(cs[r]).ops)
    requires Fits(cells, rest) && 0.0 <= o.fraction <= 1.0
    ensures E.WellFormed(k.plans[r], adaptive)
    ensures AlwaysRight(cs[r], k, k.plans[r], w, cells, adaptive, o) <==> SafePlan(k.plans[r], adaptive) || !EverLists(o)
    ensures !adaptive ==> (SafePlan(k.plans[r], adaptive) <==> SafeInOrder(cs[r]))
    ensures adaptive && SafeByCost(cs[r]) ==> SafePlan(k.plans[r], adaptive)
  {
    hide SafeByCost;
    if adaptive && SafeByCost(cs[r]) { SafeByCostHolds(cs, k, r); }
    hide Emit, ProgramOf, PoolOf, PlanFor, Setup.Ok, SafePlan, EverLists, Independent, Filled, SafeInOrder;
    PlannedIsOk(cs, k, r, w, adaptive, []);
    var s := Setup(w, k.plans[r], adaptive, ProgramOf(cs[r]), k.pool, []);
    PlanIsSafe(s, cs[r]);
    if SafePlan(k.plans[r], adaptive) || !EverLists(o) {
      SafeIsRight(cs, k, r, w, cells, adaptive, o);
    } else {
      var rows := RowsGoWrong(s, cells, cs[r], o, rest);
      assert !Right(cs[r], k, k.plans[r], w, adaptive, o, rows, []);
    }
  }

  lemma PlanIsSafe(s: Setup, c: Cond)
    requires s.Ok() && s.program == ProgramOf(c)
    ensures E.WellFormed(s.plan, s.adaptive)
    ensures !s.adaptive ==> (SafePlan(s.plan, s.adaptive) <==> SafeInOrder(c))
  {
    hide Emit, Setup.IsNode, SafeInOrder, T.Safe;
    RuleShape(s, c);
  }

  // ---- A rule that goes wrong ----------------------------------------------------------------------------------

  /** "Number in a column above a threshold." */
  function Above(col: int, threshold: nat): Cond {
    Test(Numeric(col, 0, GT, threshold))
  }

  lemma AboveOpen(w: World, cells: Table, col: int, threshold: nat, low: real, high: real)
    requires cells(col, Num(low)) && cells(col, Num(high)) && low <= w.number(threshold) < high
    ensures Open(w, cells, Numeric(col, 0, GT, threshold))
  {
    var p := Numeric(col, 0, GT, threshold);
    assert Answers(w, p, Num(high), true);
    assert Answers(w, p, Num(low), false);
  }

  /** (a and b) and (c and d), each a test on a column of its own. */
  function Nested(thresholds: seq<nat>): Cond
    requires |thresholds| == 4
  {
    All([All([Above(0, thresholds[0]), Above(1, thresholds[1])]), All([Above(2, thresholds[2]), Above(3, thresholds[3])])])
  }

  lemma NestedOps(ts: seq<nat>)
    requires |ts| == 4
    ensures var ops := ProgramOf(Nested(ts)).ops;
            && |ops| == 7 && !ops[2].PredOp? && !ops[5].PredOp? && !ops[6].PredOp?
            && ops[0] == PredOp(Numeric(0, 0, GT, ts[0]), 0) && ops[1] == PredOp(Numeric(1, 0, GT, ts[1]), 1)
            && ops[3] == PredOp(Numeric(2, 0, GT, ts[2]), 3) && ops[4] == PredOp(Numeric(3, 0, GT, ts[3]), 4)
  {
    PairOps(0, ts[0], ts[1], 0);
    PairOps(2, ts[2], ts[3], 3);
    var left, right := All([Above(0, ts[0]), Above(1, ts[1])]), All([Above(2, ts[2]), Above(3, ts[3])]);
    assert [left, right][1..] == [right];
    assert EmitAll([left, right], 0) == Emit(left, 0) + EmitAll([right], 3);
    assert EmitAll([right], 3) == Emit(right, 3) + [];
  }

  lemma PairOps(col: int, t: nat, u: nat, base: nat)
    ensures var ops := Emit(All([Above(col, t), Above(col + 1, u)]), base);
            && |ops| == 3 && ops[2].AndOp?
            && ops[0] == PredOp(Numeric(col, 0, GT, t), base) && ops[1] == PredOp(Numeric(col + 1, 0, GT, u), base + 1)
  {
    var a, b := Above(col, t), Above(col + 1, u);
    assert [a, b][1..] == [b];
    assert EmitAll([b], base + 1) == Emit(b, base + 1) + [];
    assert EmitAll([a, b], base) == Emit(a, base) + EmitAll([b], base + 1);
  }

  /** With the engine's defaults, rows of any table whose columns hold a number on either side of each threshold. */
  lemma NestedGoesWrong(ts: seq<nat>, k: Compiled, w: World, cells: Table, adaptive: bool, low: real, high: real, rest: Row)
    requires |ts| == 4 && Planned([Nested(ts)], k) && Fits(cells, rest)
    requires forall col: nat | col < 4 :: cells(col, Num(low)) && cells(col, Num(high)) && low <= w.number(ts[col]) < high
    ensures E.WellFormed(k.plans[0], adaptive)
    ensures !AlwaysRight(Nested(ts), k, k.plans[0], w, cells, adaptive, T.Options(true, 0.20))
  {
    hide AlwaysRight, Emit, ProgramOf, PoolOf, PlanFor, Setup.Ok, Answers, Open, SafePlan, EverLists;
    var c := Nested(ts);
    NestedIndependent(ts, w, cells, low, high);
    NestedShape(ts);
    assert [c][0] == c;
    RuleExactIff([c], k, 0, w, cells, adaptive, T.Options(true, 0.20), rest);
    PlannedIsOk([c], k, 0, w, adaptive, []);
    NestedUnsafe(Setup(w, k.plans[0], adaptive, ProgramOf(c), k.pool, []), ts);
    DefaultLists();
  }

  lemma NestedIndependent(ts: seq<nat>, w: World, cells: Table, low: real, high: real)
    requires |ts| == 4
    requires forall col: nat | col < 4 :: cells(col, Num(low)) && cells(col, Num(high)) && low <= w.number(ts[col]) < high
    ensures Independent(w, cells, ProgramOf(Nested(ts)).ops)
  {
    hide Emit, Open, Nested;
    NestedOps(ts);
    forall col: nat | col < 4 ensures Open(w, cells, Numeric(col, 0, GT, ts[col])) { AboveOpen(w, cells, col, ts[col], low, high); }
    forall i | 0 <= i < 7 && ProgramOf(Nested(ts)).ops[i].PredOp?
      ensures Open(w, cells, ProgramOf(Nested(ts)).ops[i].p)
    {
      assert i == 0 || i == 1 || i == 3 || i == 4;
    }
  }

  lemma NestedShape(ts: seq<nat>)
    requires |ts| == 4
    ensures CleanRule(Nested(ts)) && NoStuckNegation(Nested(ts)) && Filled(Nested(ts))
  {
  }

  lemma NestedUnsafe(s: Setup, ts: seq<nat>)
    requires |ts| == 4 && s.Ok() && s.program == ProgramOf(Nested(ts))
    ensures !SafePlan(s.plan, s.adaptive)
  {
    hide Emit, Setup.Ok, T.Safe;
    NestedEverywhere(s, Nested(ts).cs);
  }

  lemma DefaultLists()
    ensures EverLists(T.Options(true, 0.20))
  {
  }
}
