/** `evaluate_rules` from the condition trees and the columns on: compile and plan once, then for every morsel the
    zones, the predicate masks, the rules' masks, and the reduction, in any order of the morsels. */
module BatchRun {
  import opened Bits
  import opened ByteMask
  import opened MaskKernels
  import opened RuleCompiler
  import opened GlobalPlan
  import opened RulePipeline
  import opened RuleSet
  import opened PlanShape
  import opened CostShape
  import opened Columns
  import opened LeafEval
  import opened LeafExactness
  import opened Optional
  import opened ExprEvaluator
  import P = Predicates
  import K = LeafKernels
  import L = LeafMasks
  import Casts
  import C = Comparisons
  import M = Morsels
  import D = Decision
  import B = Batch
  import E = EvalPlan
  import T = EvalTree
  import RuleRun

  // ---- What is promised for a rule set -----------------------------------------------------------------------

  /** A leaf whose masks are its answers in every morsel of a batch of n rows. */
  predicate LeafSound(schema: seq<Field>, w: P.World, p: P.Predicate, n: nat) {
    && Accepted(schema, p) && LeafExact(schema, w, p, 0)
    && (n > M.MORSEL_ROWS ==> LeafExact(schema, w, p, M.MORSEL_ROWS))
  }

  predicate LeavesSound(schema: seq<Field>, w: P.World, c: Cond, n: nat) {
    match c
    case Test(p) => LeafSound(schema, w, p, n)
    case Derived(p) => LeafSound(schema, w, p, n)
    case All(cs) => forall k | 0 <= k < |cs| :: LeavesSound(schema, w, cs[k], n)
    case Any(cs) => forall k | 0 <= k < |cs| :: LeavesSound(schema, w, cs[k], n)
    case Neg(d) => LeavesSound(schema, w, d, n)
  }

  /** The rules that are evaluated exactly, as they are written: leaves that the compiler accepts and whose thresholds
      and columns suit their kernels, listed values without the separator, no NOT over an operator without a
      complement, and with selection vectors every nested AND where its list survives: in the first child of the
      outer AND, or, with the adaptive order, in its one cheapest child. */
  ghost predicate Sound(schema: seq<Field>, w: P.World, cs: seq<Cond>, adaptive: bool, o: T.Options, n: nat) {
    forall r | 0 <= r < |cs| ::
      && LeavesSound(schema, w, cs[r], n) && CleanRule(cs[r]) && NoStuckNegation(cs[r])
      && (o.selection ==> if adaptive then SafeByCost(cs[r]) else SafeInOrder(cs[r]))
  }

  function MeaningRows(w: P.World, c: Cond, rows: seq<P.Row>): (answers: seq<bool>)
    ensures |answers| == |rows| && forall i | 0 <= i < |rows| :: answers[i] == Meaning(w, c, rows[i])
  {
    seq(|rows|, i requires 0 <= i < |rows| => Meaning(w, c, rows[i]))
  }

  lemma SoundPlan(schema: seq<Field>, cs: seq<Cond>, k: Compiled, r: nat, w: P.World, adaptive: bool, rows: seq<P.Row>, o: T.Options, n: nat)
    requires Planned(cs, k) && r < |cs| && Sound(schema, w, cs, adaptive, o, n)
    ensures var s := Setup(w, k.plans[r], adaptive, ProgramOf(cs[r]), k.pool, rows);
            s.Ok() && (T.Safe(E.Decode(s.plan, s.adaptive, s.plan.root)) || !o.selection)
  {
    hide LeavesSound, SafeByCost, SafeInOrder, Emit;
    var s := Setup(w, k.plans[r], adaptive, ProgramOf(cs[r]), k.pool, rows);
    PlannedIsOk(cs, k, r, w, adaptive, rows);
    if adaptive {
      if o.selection { SafeByCostHolds(cs, k, r); }
    } else {
      RuleShape(s, cs[r]);
    }
  }

  // ---- The pool's leaves -----------------------------------------------------------------------------------------

  lemma InvertSound(schema: seq<Field>, w: P.World, p: P.Predicate, n: nat)
    requires P.Flips(p) && LeafSound(schema, w, p, n)
    ensures LeafSound(schema, w, P.Invert(p), n)
  {
    if p.Numeric? || p.Window? {
      InvertExact(NumberType(p.ctype, w.single), p.op, w.number(p.threshold));
    }
    hide Casts.CastExact, NumberType;
  }

  /** Flipping a comparison leaves its conversion harmless. */
  lemma InvertExact(t: Casts.NumType, op: P.OpType, x: real)
    requires Casts.CastExact(t, P.NumOpOf(op), x)
    ensures Casts.CastExact(t, P.NumOpOf(P.InvertOp(op)), x)
  {
  }

  ghost predicate OpsSound(schema: seq<Field>, w: P.World, ops: seq<Op>, n: nat) {
    forall i | 0 <= i < |ops| && ops[i].PredOp? :: LeafSound(schema, w, ops[i].p, n)
  }

  lemma {:induction false} EmitSound(schema: seq<Field>, w: P.World, c: Cond, base: nat, n: nat)
    requires LeavesSound(schema, w, c, n)
    ensures OpsSound(schema, w, Emit(c, base), n)
    decreases c, 1
  {
    hide LeafSound;
    match c
    case Test(_) =>
    case Derived(_) =>
    case All(cs) => EmitAllSound(schema, w, cs, base, n);
    case Any(cs) => EmitAllSound(schema, w, cs, base, n);
    case Neg(d) =>
      if d.Test? && P.Flips(d.p) { InvertSound(schema, w, d.p, n); } else { EmitSound(schema, w, d, base, n); }
  }

  lemma {:induction false} EmitAllSound(schema: seq<Field>, w: P.World, cs: seq<Cond>, base: nat, n: nat)
    requires forall k | 0 <= k < |cs| :: LeavesSound(schema, w, cs[k], n)
    ensures OpsSound(schema, w, EmitAll(cs, base), n)
    decreases cs, 0
  {
    hide LeafSound;
    if cs != [] {
      EmitAllStep(cs, base);
      EmitSound(schema, w, cs[0], base, n);
      EmitAllSound(schema, w, cs[1..], base + |Emit(cs[0], base)|, n);
    }
  }

  ghost predicate PoolSound(schema: seq<Field>, w: P.World, pool: seq<P.Predicate>, n: nat) {
    forall p | 0 <= p < |pool| :: LeafSound(schema, w, pool[p], n)
  }

  lemma PlannedSound(schema: seq<Field>, w: P.World, cs: seq<Cond>, k: Compiled, adaptive: bool, o: T.Options, n: nat)
    requires Planned(cs, k) && Sound(schema, w, cs, adaptive, o, n)
    ensures PoolSound(schema, w, k.pool, n)
  {
    hide LeafSound, LeavesSound, Emit, PlanFor, PoolOf;
    forall p | 0 <= p < |k.pool| ensures LeafSound(schema, w, k.pool[p], n) {
      PoolAsked(ProgramsOf(cs), k.pool[p]);
      var q :| 0 <= q < |cs| && Asks(ProgramsOf(cs)[q].ops, k.pool[p]);
      EmitSound(schema, w, cs[q], 0, n);
    }
  }

  /** Behind the first morsel all morsels are alike. */
  lemma SoundAt(schema: seq<Field>, w: P.World, p: P.Predicate, n: nat, mi: nat)
    requires LeafSound(schema, w, p, n) && mi < M.MorselCount(n)
    ensures LeafExact(schema, w, p, M.MORSEL_ROWS * mi)
  {
    hide Casts.CastExact, Casts.RangeCastExact, NumberType;
    if mi > 0 { assert n > M.MORSEL_ROWS; }
  }

  // ---- Zones -----------------------------------------------------------------------------------------------------

  /** Arrow's `GetNullCount`. */
  function NullCount(c: Column, n: nat): nat {
    if n == 0 then 0 else NullCount(c, n - 1) + if ValidAt(c, n - 1) then 0 else 1
  }

  lemma {:induction false} NoNulls(c: Column, n: nat)
    requires NullCount(c, n) == 0
    ensures forall i: nat | i < n :: ValidAt(c, i)
  {
    if n != 0 { NoNulls(c, n - 1); }
  }

  /** How many numeric predicates of the pool read the column. */
  function NumericUses(pool: seq<P.Predicate>, col: int): nat {
    if pool == [] then 0
    else NumericUses(pool[..|pool| - 1], col) + if ZoneColumn(pool[|pool| - 1]) == Some(col) then 1 else 0
  }

  lemma {:induction false} UsedColumn(schema: seq<Field>, w: P.World, pool: seq<P.Predicate>, col: int, n: nat)
    requires PoolSound(schema, w, pool, n) && NumericUses(pool, col) > 0
    ensures NumericField(schema, col)
  {
    hide LeafExact;
    var last := pool[|pool| - 1];
    assert LeafSound(schema, w, last, n);
    if ZoneColumn(last) != Some(col) { UsedColumn(schema, w, pool[..|pool| - 1], col, n); }
  }

  /** `numeric_predicate_counts`. */
  method CountUses(pool: seq<P.Predicate>, columns: nat) returns (counts: seq<nat>)
    ensures |counts| == columns && forall c | 0 <= c < columns :: counts[c] == NumericUses(pool, c)
  {
    counts := seq(columns, _ => 0);
    for p := 0 to |pool|
      invariant |counts| == columns && forall c | 0 <= c < columns :: counts[c] == NumericUses(pool[..p], c)
    {
      assert pool[..p + 1][..p] == pool[..p];
      match ZoneColumn(pool[p]) {
        case Some(col) =>
          if 0 <= col < columns { counts := counts[col := counts[col] + 1]; }
        case None =>
      }
    }
    assert pool[..|pool|] == pool;
  }

  ghost predicate ZonesFit(zones: seq<Option<K.Zone>>, b: Columns.Batch, r0: nat, m: nat) {
    |zones| == |b.columns| && forall c | 0 <= c < |zones| :: ZoneFits(zones[c], b, c, r0, m)
  }

  /** A zone for each column that several numeric predicates read and that has no nulls. */
  method ComputeZones(ghost schema: seq<Field>, ghost w: P.World, pool: seq<P.Predicate>, b: Columns.Batch, r0: nat, m: nat)
    returns (zones: seq<Option<K.Zone>>)
    requires PoolSound(schema, w, pool, b.n) && BatchFits(schema, b, w.single) && 0 < m && r0 + m <= b.n
    ensures ZonesFit(zones, b, r0, m)
    ensures forall c | 0 <= c < |zones| :: zones[c].Some? <==> NumericUses(pool, c) > 1 && NullCount(b.columns[c], b.n) == 0
  {
    hide PoolSound, K.ZoneOf;
    var counts := CountUses(pool, |b.columns|);
    zones := [];
    for c := 0 to |b.columns|
      invariant |zones| == c && forall d | 0 <= d < c :: ZoneFits(zones[d], b, d, r0, m)
      invariant forall d | 0 <= d < c :: zones[d].Some? <==> NumericUses(pool, d) > 1 && NullCount(b.columns[d], b.n) == 0
    {
      if counts[c] > 1 && NullCount(b.columns[c], b.n) == 0 {
        UsedColumn(schema, w, pool, c, b.n);
        ColumnReady(schema, b, w.single, c);
        NoNulls(b.columns[c], b.n);
        var zone := K.ComputeZone(b.columns[c].values.data[r0..r0 + m]);
        zones := zones + [Some(zone)];
      } else {
        zones := zones + [None];
      }
    }
  }

  // ---- One morsel ------------------------------------------------------------------------------------------------

  function ZoneOfPredicate(zones: seq<Option<K.Zone>>, p: P.Predicate): Option<K.Zone> {
    match ZoneColumn(p)
    case None => None
    case Some(col) => if 0 <= col < |zones| then zones[col] else None
  }

  /** The mask of each pool entry on the morsel. */
  ghost predicate Masked(schema: seq<Field>, w: P.World, mc: Machine, pool: seq<P.Predicate>, b: Columns.Batch, r0: nat, m: nat,
                         zones: seq<Option<K.Zone>>, p: nat, mask: seq<Byte>)
    requires p < |pool| && Ready(schema, w, pool[p], b, r0, m)
  {
    Encodes(mask, LeafRows(schema, w, mc, pool[p], b, r0, m, ZoneOfPredicate(zones, pool[p])))
  }

  ghost predicate AllReady(schema: seq<Field>, w: P.World, pool: seq<P.Predicate>, b: Columns.Batch, r0: nat, m: nat) {
    forall p | 0 <= p < |pool| :: Ready(schema, w, pool[p], b, r0, m)
  }

  /** The predicate masks of a morsel, filled in the plan's evaluation order. */
  method EvalPredicates(ghost schema: seq<Field>, w: P.World, mc: Machine, k: Compiled, b: Columns.Batch, r0: nat, m: nat, zones: seq<Option<K.Zone>>)
    returns (masks: seq<array<Byte>>)
    requires AllReady(schema, w, k.pool, b, r0, m)
    requires multiset(k.order) == multiset(seq(|k.pool|, i => i))
    ensures |masks| == |k.pool|
    ensures forall p | 0 <= p < |masks| :: fresh(masks[p]) && Masked(schema, w, mc, k.pool, b, r0, m, zones, p, masks[p][..])
  {
    masks := [];
    while |masks| < |k.pool|
      invariant |masks| <= |k.pool|
      invariant forall p | 0 <= p < |masks| :: fresh(masks[p]) && masks[p].Length == Bytes(m)
      invariant forall p, q | 0 <= p < q < |masks| :: masks[p] != masks[q]
    {
      var mask := new Byte[Bytes(m)](_ => 0);
      masks := masks + [mask];
    }
    OrderInside(k);
    for j := 0 to |k.order|
      invariant forall p | 0 <= p < |masks| :: fresh(masks[p]) && masks[p].Length == Bytes(m)
      invariant forall a | 0 <= a < j :: Masked(schema, w, mc, k.pool, b, r0, m, zones, k.order[a], masks[k.order[a]][..])
    {
      hide Encodes, LeafRows, Ready;
      var p := k.order[j];
      EvalPredicate(schema, w, mc, k.pool[p], b, r0, m, ZoneOfPredicate(zones, k.pool[p]), masks[p]);
    }
    forall p: nat | p < |masks| ensures Masked(schema, w, mc, k.pool, b, r0, m, zones, p, masks[p][..]) {
      var a := OrderHas(k, p);
    }
  }

  lemma OrderInside(k: Compiled)
    requires multiset(k.order) == multiset(seq(|k.pool|, i => i))
    ensures forall a | 0 <= a < |k.order| :: k.order[a] < |k.pool|
  {
    forall a | 0 <= a < |k.order| ensures k.order[a] < |k.pool| {
      assert k.order[a] in multiset(seq(|k.pool|, i => i));
    }
  }

  lemma OrderHas(k: Compiled, p: nat) returns (a: nat)
    requires multiset(k.order) == multiset(seq(|k.pool|, i => i)) && p < |k.pool|
    ensures a < |k.order| && k.order[a] == p
  {
    assert seq(|k.pool|, i => i)[p] == p;
    assert p in multiset(k.order);
    a :| 0 <= a < |k.order| && k.order[a] == p;
  }

  function Answers(w: P.World, p: P.Predicate, rows: seq<P.Row>): (answers: seq<bool>)
    ensures |answers| == |rows| && forall i | 0 <= i < |rows| :: answers[i] == P.Holds(w, p, rows[i])
  {
    L.Answers(w, p, rows)
  }

  lemma SoundReady(schema: seq<Field>, w: P.World, pool: seq<P.Predicate>, b: Columns.Batch, mi: nat)
    requires PoolSound(schema, w, pool, b.n) && BatchFits(schema, b, w.single) && mi < M.MorselCount(b.n)
    ensures AllReady(schema, w, pool, b, M.MORSEL_ROWS * mi, M.Size(b.n, mi))
  {
    hide LeafExact;
    assert M.MORSEL_ROWS * mi % 8 == 0;
    forall p | 0 <= p < |pool| ensures Ready(schema, w, pool[p], b, M.MORSEL_ROWS * mi, M.Size(b.n, mi)) {
      assert LeafSound(schema, w, pool[p], b.n);
    }
  }

  /** A sound leaf's mask is its answers on the morsel. */
  lemma MaskedAnswers(schema: seq<Field>, w: P.World, mc: Machine, pool: seq<P.Predicate>, b: Columns.Batch, mi: nat,
                      zones: seq<Option<K.Zone>>, p: nat, mask: seq<Byte>)
    requires PoolSound(schema, w, pool, b.n) && BatchFits(schema, b, w.single) && mi < M.MorselCount(b.n) && p < |pool|
    requires Casts.Rounding(w.single) && Legal(mc, w.single)
    requires ZonesFit(zones, b, M.MORSEL_ROWS * mi, M.Size(b.n, mi)) && Ready(schema, w, pool[p], b, M.MORSEL_ROWS * mi, M.Size(b.n, mi))
    requires Masked(schema, w, mc, pool, b, M.MORSEL_ROWS * mi, M.Size(b.n, mi), zones, p, mask)
    ensures Encodes(mask, Answers(w, pool[p], MorselRows(b, M.MORSEL_ROWS * mi, M.Size(b.n, mi))))
  {
    hide LeafRows, LeafSound, Encodes, Ready, LeafExact, ZoneFits, Legal;
    var r0, m := M.MORSEL_ROWS * mi, M.Size(b.n, mi);
    assert LeafSound(schema, w, pool[p], b.n);
    SoundAt(schema, w, pool[p], b.n, mi);
    ZoneIsLeafs(zones, pool[p], b, r0, m);
    LeafHolds(schema, w, mc, pool[p], b, r0, m, ZoneOfPredicate(zones, pool[p]));
  }

  lemma ZoneIsLeafs(zones: seq<Option<K.Zone>>, p: P.Predicate, b: Columns.Batch, r0: nat, m: nat)
    requires ZonesFit(zones, b, r0, m)
    ensures ZoneOfLeaf(p, b, r0, m, ZoneOfPredicate(zones, p))
  {
    hide K.ZoneOf;
  }

  /** A morsel's share of the work: zones, predicate masks, and the rule loop with a cleared memo for each rule and
      the survivor buffer as the last one left it. */
  method MaskMorsel(ghost schema: seq<Field>, w: P.World, mc: Machine, cs: seq<Cond>, k: Compiled, adaptive: bool, o: T.Options,
                    b: Columns.Batch, mi: nat, leftover: seq<nat>) returns (masks: seq<array<Byte>>)
    requires Planned(cs, k) && Sound(schema, w, cs, adaptive, o, b.n) && multiset(k.order) == multiset(seq(|k.pool|, i => i))
    requires BatchFits(schema, b, w.single) && Casts.Rounding(w.single) && Legal(mc, w.single) && mi < M.MorselCount(b.n)
    ensures |masks| == |cs|
    ensures forall r | 0 <= r < |cs| ::
              fresh(masks[r]) && Encodes(masks[r][..], MeaningRows(w, cs[r], MorselRows(b, M.MORSEL_ROWS * mi, M.Size(b.n, mi))))
  {
    hide *;
    var r0, m := M.MORSEL_ROWS * mi, M.Size(b.n, mi);
    PlannedSound(schema, w, cs, k, adaptive, o, b.n);
    SoundReady(schema, w, k.pool, b, mi);
    var zones := ComputeZones(schema, w, k.pool, b, r0, m);
    var predicates := EvalPredicates(schema, w, mc, k, b, r0, m, zones);
    ghost var morsel := MorselRows(b, r0, m);
    forall p: nat | p < |predicates| ensures Encodes(predicates[p][..], Answers(w, k.pool[p], morsel)) {
      ReadyEntry(schema, w, k.pool, b, r0, m, p);
      MaskedAnswers(schema, w, mc, k.pool, b, mi, zones, p, predicates[p][..]);
    }
    var survivors := leftover;
    masks := [];
    while |masks| < |cs|
      invariant |masks| <= |cs|
      invariant forall p | 0 <= p < |predicates| :: fresh(predicates[p]) && Encodes(predicates[p][..], Answers(w, k.pool[p], morsel))
      invariant forall r | 0 <= r < |masks| :: fresh(masks[r]) && Encodes(masks[r][..], MeaningRows(w, cs[r], morsel))
    {
      var mask;
      mask, survivors := MaskRule(schema, w, cs, k, |masks|, adaptive, o, m, morsel, predicates, survivors, b.n);
      masks := masks + [mask];
    }
  }

  lemma ReadyEntry(schema: seq<Field>, w: P.World, pool: seq<P.Predicate>, b: Columns.Batch, r0: nat, m: nat, p: nat)
    requires AllReady(schema, w, pool, b, r0, m) && p < |pool|
    ensures Ready(schema, w, pool[p], b, r0, m)
  {
  }

  /** One rule on one morsel. */
  method MaskRule(ghost schema: seq<Field>, w: P.World, cs: seq<Cond>, k: Compiled, r: nat, adaptive: bool, o: T.Options, m: nat, ghost morsel: seq<P.Row>,
                  predicates: seq<array<Byte>>, leftover: seq<nat>, ghost n: nat) returns (mask: array<Byte>, survivors: seq<nat>)
    requires Planned(cs, k) && r < |cs| && Sound(schema, w, cs, adaptive, o, n) && |predicates| == |k.pool| && m == |morsel|
    requires forall p | 0 <= p < |predicates| :: Encodes(predicates[p][..], Answers(w, k.pool[p], morsel))
    ensures fresh(mask) || mask in predicates
    ensures Encodes(mask[..], MeaningRows(w, cs[r], morsel))
  {
    hide *;
    PlannedPlans(cs, k);
    ghost var s := Setup(w, k.plans[r], adaptive, ProgramOf(cs[r]), k.pool, morsel);
    SoundPlan(schema, cs, k, r, w, adaptive, morsel, o, n);
    SoundRule(schema, w, cs, adaptive, o, r, n);
    EvaluatorFits(s, o, predicates);
    var e := new Evaluator(k.plans[r], adaptive, o, m, predicates, s.Env(o).preds, leftover);
    mask := RuleRun.EvaluateRule(e, s, cs[r]);
    survivors := e.survivors;
    MaskEncodes(w, cs[r], morsel, mask[..]);
  }

  lemma PlannedPlans(cs: seq<Cond>, k: Compiled)
    requires Planned(cs, k)
    ensures |k.plans| == |cs|
  {
  }

  lemma SoundRule(schema: seq<Field>, w: P.World, cs: seq<Cond>, adaptive: bool, o: T.Options, r: nat, n: nat)
    requires Sound(schema, w, cs, adaptive, o, n) && r < |cs|
    ensures NoStuckNegation(cs[r]) && ProgramOf(cs[r]) == Program(Emit(cs[r], 0), |Emit(cs[r], 0)| - 1)
  {
    hide LeavesSound, SafeByCost, SafeInOrder;
  }

  lemma EvaluatorFits(s: Setup, o: T.Options, predicates: seq<array<Byte>>)
    requires s.Ok() && |predicates| == |s.pool|
    requires forall p | 0 <= p < |predicates| :: Encodes(predicates[p][..], Answers(s.w, s.pool[p], s.rows))
    ensures E.WellFormed(s.plan, s.adaptive)
    ensures forall n: nat | n < |s.plan.nodes| && s.plan.nodes[n].Pred? :: s.plan.nodes[n].p < |predicates|
    ensures var env := s.Env(o);
            && env == T.Env(env.preds, |s.rows|, o)
            && (forall p: nat :: p in env.preds <==> p < |predicates|)
            && (forall p: nat | p < |predicates| :: |env.preds[p]| == |s.rows| && Encodes(predicates[p][..], env.preds[p]))
  {
    hide Encodes, E.WellFormed;
    forall n: nat | n < |s.plan.nodes| && s.plan.nodes[n].Pred? ensures s.plan.nodes[n].p < |predicates| {
      assert s.IsNode(s.plan.nodes[n], s.program.ops[n], n);
    }
    forall p: nat | p < |predicates| ensures s.Env(o).preds[p] == Answers(s.w, s.pool[p], s.rows) {
    }
  }

  lemma MaskEncodes(w: P.World, c: Cond, rows: seq<P.Row>, mask: seq<Byte>)
    requires |mask| == Bytes(|rows|)
    requires forall i: nat | i < 8 * |mask| :: At(mask, i) == (i < |rows| && Meaning(w, c, rows[i]))
    ensures Encodes(mask, MeaningRows(w, c, rows))
  {
    hide Meaning, Bit;
  }

  // ---- The whole batch ---------------------------------------------------------------------------------------

  /** Each rule's answers on the batch. */
  function Matches(w: P.World, cs: seq<Cond>, rows: seq<P.Row>): (matches: seq<seq<bool>>)
    ensures |matches| == |cs| && forall r | 0 <= r < |cs| :: matches[r] == MeaningRows(w, cs[r], rows)
  {
    seq(|cs|, r requires 0 <= r < |cs| => MeaningRows(w, cs[r], rows))
  }

  function JobOf(w: P.World, cs: seq<Cond>, rules: seq<D.Rule>, start: D.Row, rows: seq<P.Row>): M.Job {
    M.Job(|rows|, rules, start, Matches(w, cs, rows))
  }

  lemma JobFits(w: P.World, cs: seq<Cond>, rules: seq<D.Rule>, start: D.Row, rows: seq<P.Row>)
    requires |rules| == |cs|
    ensures JobOf(w, cs, rules, start, rows).Ok()
  {
    hide MeaningRows;
  }

  /** A morsel's rows are its stretch of the batch. */
  lemma SliceOfBatch(w: P.World, c: Cond, rows: seq<P.Row>, mi: nat)
    requires mi < M.MorselCount(|rows|)
    ensures var r0, m := M.MORSEL_ROWS * mi, M.Size(|rows|, mi);
            M.Slice(MeaningRows(w, c, rows), mi) == MeaningRows(w, c, rows[r0..r0 + m])
  {
    hide Meaning;
  }

  /** One morsel's masks encode its stretch of the matches. */
  ghost predicate MorselMasked(w: P.World, cs: seq<Cond>, rows: seq<P.Row>, mi: nat, masks: seq<array<Byte>>)
    requires mi < M.MorselCount(|rows|)
    reads masks
  {
    |masks| == |cs| && forall r | 0 <= r < |cs| :: Encodes(masks[r][..], M.Slice(MeaningRows(w, cs[r], rows), mi))
  }

  method MaskBatchMorsel(ghost schema: seq<Field>, w: P.World, mc: Machine, cs: seq<Cond>, k: Compiled, adaptive: bool, o: T.Options,
                         b: Columns.Batch, mi: nat, leftover: seq<nat>)
    returns (masks: seq<array<Byte>>)
    requires Planned(cs, k) && Sound(schema, w, cs, adaptive, o, b.n) && multiset(k.order) == multiset(seq(|k.pool|, i => i))
    requires BatchFits(schema, b, w.single) && Casts.Rounding(w.single) && Legal(mc, w.single)
    requires |RowsOf(b)| == b.n && mi < M.MorselCount(b.n)
    ensures (forall r | 0 <= r < |masks| :: fresh(masks[r])) && MorselMasked(w, cs, RowsOf(b), mi, masks)
  {
    hide Planned, Sound, Encodes, M.Slice, MeaningRows, BatchFits, Casts.Rounding, Legal, MorselRows, RowsOf;
    masks := MaskMorsel(schema, w, mc, cs, k, adaptive, o, b, mi, leftover);
    forall r | 0 <= r < |cs| ensures Encodes(masks[r][..], M.Slice(MeaningRows(w, cs[r], RowsOf(b)), mi)) {
      SliceOfBatch(w, cs[r], RowsOf(b), mi);
      MorselOfRows(b, M.MORSEL_ROWS * mi, M.Size(b.n, mi));
    }
  }

  lemma RowsCount(b: Columns.Batch)
    ensures |RowsOf(b)| == b.n
  {
  }

  /** From condition trees and columns to decisions.  For every schema, every set of rules that suits it, every batch
      with its nulls and whatever stands under them, every machine, every number of threads, every interleaving of
      the morsels and whatever list of survivors each finds: each row ends as if the rules that mean to match it had
      been applied one after the other, and masks, counts and the union are those of the meanings. */
  method EvaluateBatch(ghost schema: seq<Field>, w: P.World, mc: Machine, cs: seq<Cond>, rules: seq<D.Rule>, start: D.Row,
                       adaptive: bool, o: T.Options, b: Columns.Batch, threads: nat, schedule: seq<B.Turn>, leftover: nat -> seq<nat>)
    returns (e: B.Evaluation, totals: seq<nat>, matched: nat)
    requires |rules| == |cs| && Sound(schema, w, cs, adaptive, o, b.n)
    requires BatchFits(schema, b, w.single) && Casts.Rounding(w.single) && Legal(mc, w.single)
    requires B.Complete(schedule, threads, M.MorselCount(b.n), |cs|)
    ensures e.Valid() && e.job == JobOf(w, cs, rules, start, RowsOf(b)) && e.n == b.n && e.rules == rules
    ensures forall i: nat | i < b.n :: e.rows[i] == e.job.RowAt(i, |cs|)
    ensures Encodes(e.uni[..], B.AnyMatch(e.job))
    ensures forall r: nat, j: nat | r < |cs| && j < e.out.Length1 :: EncodesByte(e.out[r, j], j, MeaningRows(w, cs[r], RowsOf(b)))
    ensures |totals| == |cs| && forall r | 0 <= r < |cs| :: totals[r] == Count(MeaningRows(w, cs[r], RowsOf(b)))
    ensures matched == Count(B.AnyMatch(e.job))
  {
    hide *;
    RowsCount(b);
    ghost var rows := RowsOf(b);
    var k := CompileRules(cs);
    var masks: seq<seq<array<Byte>>> := [];
    while |masks| < M.MorselCount(b.n)
      invariant |masks| <= M.MorselCount(b.n)
      invariant forall mi | 0 <= mi < |masks| :: MorselMasked(w, cs, rows, mi, masks[mi])
    {
      var morsel := MaskBatchMorsel(schema, w, mc, cs, k, adaptive, o, b, |masks|, leftover(|masks|));
      masks := masks + [morsel];
    }
    JobFits(w, cs, rules, start, rows);
    JobParts(w, cs, rules, start, rows);
    e := new B.Evaluation(b.n, rules, start, threads, Matches(w, cs, rows));
    EvaluationShape(e);
    MasksFit(e, w, cs, rules, start, rows, masks);
    totals, matched := B.EvaluateRules(e, schedule, masks);
  }

  lemma JobParts(w: P.World, cs: seq<Cond>, rules: seq<D.Rule>, start: D.Row, rows: seq<P.Row>)
    ensures JobOf(w, cs, rules, start, rows) == M.Job(|rows|, rules, start, Matches(w, cs, rows))
  {
  }

  lemma EvaluationShape(e: B.Evaluation)
    requires e.Valid()
    ensures e.job.Ok() && |e.progress| == M.MorselCount(e.n) && e.job.n == e.n && e.job.rules == e.rules
    ensures e.out.Length0 == |e.rules| && e.rows.Length == e.n
  {
  }

  lemma MasksFit(e: B.Evaluation, w: P.World, cs: seq<Cond>, rules: seq<D.Rule>, start: D.Row, rows: seq<P.Row>, masks: seq<seq<array<Byte>>>)
    requires |rules| == |cs| && e.job == M.Job(|rows|, rules, start, Matches(w, cs, rows)) && |masks| == M.MorselCount(|rows|)
    requires e.job.Ok() && forall mi | 0 <= mi < |masks| :: MorselMasked(w, cs, rows, mi, masks[mi])
    ensures forall mi | 0 <= mi < |masks| :: |masks[mi]| == |cs|
    ensures forall mi, r | 0 <= mi < |masks| && 0 <= r < |cs| :: Encodes(masks[mi][r][..], M.Slice(e.job.matches[r], mi))
  {
    hide Encodes, M.Slice, MeaningRows;
    forall mi | 0 <= mi < |masks| ensures MorselMasked(w, cs, rows, mi, masks[mi]) {
    }
  }
}
