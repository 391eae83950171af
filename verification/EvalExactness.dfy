/** The converse of `EvalTree.SafeExact`: an expression that is not safe has predicate masks, already
    on a morsel of two rows, for which the evaluator's mask is wrong. */
module EvalExactness {
  import opened ByteMask
  import opened MaskKernels
  import opened EvalTree

  function Leaves(e: Expr): set<nat> {
    match e
    case Leaf(p) => {p}
    case NotOf(c) => Leaves(c)
    case AnyOf(cs) => LeavesAll(cs)
    case AllOf(cs) => LeavesAll(cs)
  }

  function LeavesAll(cs: seq<Expr>): set<nat> {
    if cs == [] then {} else Leaves(cs[0]) + LeavesAll(cs[1..])
  }

  /** No predicate of the pool occurs twice in the rule. */
  predicate ReadOnce(e: Expr) {
    match e
    case Leaf(_) => true
    case NotOf(c) => ReadOnce(c)
    case AnyOf(cs) => ReadOnceAll(cs)
    case AllOf(cs) => ReadOnceAll(cs)
  }

  predicate ReadOnceAll(cs: seq<Expr>) {
    cs == [] || (ReadOnce(cs[0]) && Leaves(cs[0]) !! LeavesAll(cs[1..]) && ReadOnceAll(cs[1..]))
  }

  /** Every AND and OR has a child. */
  predicate NonEmpty(e: Expr) {
    match e
    case Leaf(_) => true
    case NotOf(c) => NonEmpty(c)
    case AnyOf(cs) => cs != [] && forall k | 0 <= k < |cs| :: NonEmpty(cs[k])
    case AllOf(cs) => cs != [] && forall k | 0 <= k < |cs| :: NonEmpty(cs[k])
  }

  lemma {:induction false} ChildReadOnce(cs: seq<Expr>, k: nat)
    requires ReadOnceAll(cs) && k < |cs|
    ensures ReadOnce(cs[k])
  {
    if k != 0 { ChildReadOnce(cs[1..], k - 1); }
  }

  // ---- Assignments of masks ------------------------------------------------------------------------

  type Masks = map<nat, seq<bool>>

  const NONE: seq<bool> := [false, false]
  const BOTH: seq<bool> := [true, true]
  const UPPER: seq<bool> := [true, false]

  function AllRows(m: nat): (rows: seq<bool>)
    ensures |rows| == m
  {
    seq(m, _ => true)
  }

  /** Every mask has one bit a row. */
  predicate Sized(a: Masks, m: nat) {
    forall p: nat | p in a :: |a[p]| == m
  }

  /** Masks that give every AND and OR in e, up to negation, the value w. */
  function Const(e: Expr, w: seq<bool>): (a: Masks)
    ensures a.Keys == Leaves(e) && Sized(a, |w|)
    decreases e, 1
  {
    match e
    case Leaf(p) => map[p := w]
    case NotOf(c) => Const(c, NotRows(w))
    case AnyOf(cs) => ConstAll(cs, w)
    case AllOf(cs) => ConstAll(cs, w)
  }

  function ConstAll(cs: seq<Expr>, w: seq<bool>): (a: Masks)
    ensures a.Keys == LeavesAll(cs) && Sized(a, |w|)
    decreases cs, 0
  {
    if cs == [] then map[] else Const(cs[0], w) + ConstAll(cs[1..], w)
  }

  /** Child j gets the masks a, the others the constant v. */
  function Around(cs: seq<Expr>, j: nat, a: Masks, v: seq<bool>): (b: Masks)
    requires j < |cs| && a.Keys == Leaves(cs[j])
    ensures b.Keys == LeavesAll(cs) && (Sized(a, |v|) ==> Sized(b, |v|))
  {
    if j == 0 then a + ConstAll(cs[1..], v) else Const(cs[0], v) + Around(cs[1..], j - 1, a, v)
  }

  /** The morsel's predicate masks are the assigned ones. */
  ghost predicate Has(env: Env, a: Masks) {
    forall p: nat | p in a :: p in env.preds && env.preds[p] == a[p]
  }

  /** Two rows, selection vectors on, threshold 1.0: every AND of two children goes sparse. */
  ghost predicate Witness(env: Env) {
    env.m == 2 && env.o == Options(true, 1.0)
  }

  lemma HasParts(env: Env, a: Masks, b: Masks)
    requires Has(env, a + b) && a.Keys !! b.Keys
    ensures Has(env, a) && Has(env, b)
  {
    forall p: nat | p in a ensures p in env.preds && env.preds[p] == a[p] { assert p in a + b; }
  }

  lemma AlwaysSparse(env: Env, first: seq<bool>, width: nat)
    requires Witness(env) && |first| == 2 && width > 1
    ensures env.Sparse(first, width)
    ensures Indices(first) == (if first[0] then [0] else []) + (if first[1] then [1] else [])
  {
    assert IndicesBelow(first, 1) == if first[0] then [0] else [];
    assert env.Threshold() == 2;
  }

  lemma {:induction false} ConstTruth(e: Expr, w: seq<bool>, env: Env, i: nat)
    requires ReadOnce(e) && NonEmpty(e) && |w| == env.m && Has(env, Const(e, w)) && i < env.m
    ensures TruthAt(e, env, i) == w[i]
    decreases e, 1
  {
    match e
    case Leaf(p) => assert p in Const(e, w);
    case NotOf(c) => ConstTruth(c, NotRows(w), env, i);
    case AnyOf(cs) => ConstTruthAll(cs, w, env, i); assert TruthAt(cs[0], env, i) == w[i];
    case AllOf(cs) => ConstTruthAll(cs, w, env, i); assert TruthAt(cs[0], env, i) == w[i];
  }

  lemma {:induction false} ConstTruthAll(cs: seq<Expr>, w: seq<bool>, env: Env, i: nat)
    requires ReadOnceAll(cs) && (forall k | 0 <= k < |cs| :: NonEmpty(cs[k]))
    requires |w| == env.m && Has(env, ConstAll(cs, w)) && i < env.m
    ensures forall k | 0 <= k < |cs| :: TruthAt(cs[k], env, i) == w[i]
    decreases cs, 0
  {
    if cs != [] {
      HasParts(env, Const(cs[0], w), ConstAll(cs[1..], w));
      ConstTruth(cs[0], w, env, i);
      ConstTruthAll(cs[1..], w, env, i);
      forall k | 1 <= k < |cs| ensures TruthAt(cs[k], env, i) == w[i] { assert cs[k] == cs[1..][k - 1]; }
    }
  }

  /** With child j's siblings at the neutral value, only child j decides. */
  lemma {:induction false} AroundTruth(cs: seq<Expr>, j: nat, a: Masks, v: seq<bool>, env: Env, i: nat)
    requires ReadOnceAll(cs) && (forall k | 0 <= k < |cs| :: NonEmpty(cs[k]))
    requires |v| == env.m && j < |cs| && a.Keys == Leaves(cs[j]) && Has(env, Around(cs, j, a, v)) && i < env.m
    ensures forall k | 0 <= k < |cs| && k != j :: TruthAt(cs[k], env, i) == v[i]
    ensures Has(env, a)
    decreases cs
  {
    if j == 0 {
      HasParts(env, a, ConstAll(cs[1..], v));
      ConstTruthAll(cs[1..], v, env, i);
      forall k | 1 <= k < |cs| ensures TruthAt(cs[k], env, i) == v[i] { assert cs[k] == cs[1..][k - 1]; }
    } else {
      HasParts(env, Const(cs[0], v), Around(cs[1..], j - 1, a, v));
      ConstTruth(cs[0], v, env, i);
      AroundTruth(cs[1..], j - 1, a, v, env, i);
      forall k | 1 <= k < |cs| && k != j ensures TruthAt(cs[k], env, i) == v[i] { assert cs[k] == cs[1..][k - 1]; }
    }
  }

  // ---- Row-symmetric runs ---------------------------------------------------------------------------

  predicate EvenMask(mask: seq<bool>) {
    |mask| == 2 && mask[0] == mask[1]
  }

  predicate EvenList(surv: seq<nat>) {
    surv == [] || surv == [0, 1]
  }

  /** Evaluating e treats the two rows alike. */
  ghost predicate Even(e: Expr, env: Env) {
    forall surv: seq<nat> | EvenList(surv) :: EvenMask(Go(e, env, surv).mask) && EvenList(Go(e, env, surv).surv)
  }

  lemma FilterEven(surv: seq<nat>, mask: seq<bool>)
    requires |mask| == 2
    ensures Filter([], mask) == []
    ensures Filter([0], mask) == if mask[0] then [0] else []
    ensures Filter([0, 1], mask) == (if mask[0] then [0] else []) + (if mask[1] then [1] else [])
  {
    assert [0][..0] == [];
    assert [0, 1][..1] == [0];
  }

  lemma {:induction false} EvenOrRest(cs: seq<Expr>, env: Env, acc: seq<bool>, surv: seq<nat>)
    requires env.m == 2 && EvenMask(acc) && EvenList(surv)
    requires forall k | 0 <= k < |cs| :: Even(cs[k], env)
    ensures EvenMask(OrRest(cs, env, acc, surv).mask) && EvenList(OrRest(cs, env, acc, surv).surv)
    decreases |cs|
  {
    if cs != [] {
      assert Even(cs[0], env);
      var r := Go(cs[0], env, surv);
      EvenOrRest(cs[1..], env, OrRows(acc, r.mask), r.surv);
    }
  }

  lemma {:induction false} EvenAndRest(cs: seq<Expr>, env: Env, acc: seq<bool>, surv: seq<nat>)
    requires env.m == 2 && EvenMask(acc) && EvenList(surv)
    requires forall k | 0 <= k < |cs| :: Even(cs[k], env)
    ensures EvenMask(AndRest(cs, env, acc, surv).mask) && EvenList(AndRest(cs, env, acc, surv).surv)
    decreases |cs|
  {
    if cs != [] {
      assert Even(cs[0], env);
      var r := Go(cs[0], env, surv);
      EvenAndRest(cs[1..], env, AndRows(acc, r.mask), r.surv);
    }
  }

  lemma {:induction false} EvenSparseRest(cs: seq<Expr>, env: Env, surv: seq<nat>)
    requires env.m == 2 && EvenList(surv)
    requires forall k | 0 <= k < |cs| :: Even(cs[k], env)
    ensures EvenList(SparseRest(cs, env, surv))
    decreases |cs|
  {
    if cs != [] && surv != [] {
      assert Even(cs[0], env);
      var r := Go(cs[0], env, surv);
      FilterEven(r.surv, r.mask);
      EvenSparseRest(cs[1..], env, Filter(r.surv, r.mask));
    }
  }

  lemma EvenOr(cs: seq<Expr>, env: Env)
    requires Witness(env) && forall k | 0 <= k < |cs| :: Even(cs[k], env)
    ensures Even(AnyOf(cs), env)
  {
    forall surv: seq<nat> | EvenList(surv)
      ensures EvenMask(Go(AnyOf(cs), env, surv).mask) && EvenList(Go(AnyOf(cs), env, surv).surv)
    {
      if cs != [] {
        assert Even(cs[0], env);
        var first := Go(cs[0], env, surv);
        EvenOrRest(cs[1..], env, first.mask, first.surv);
      }
    }
  }

  lemma EvenAnd(cs: seq<Expr>, env: Env)
    requires Witness(env) && forall k | 0 <= k < |cs| :: Even(cs[k], env)
    ensures Even(AllOf(cs), env)
  {
    forall surv: seq<nat> | EvenList(surv)
      ensures EvenMask(Go(AllOf(cs), env, surv).mask) && EvenList(Go(AllOf(cs), env, surv).surv)
    {
      if cs != [] {
        assert Even(cs[0], env);
        var first := Go(cs[0], env, surv);
        if |cs| > 1 {
          AlwaysSparse(env, first.mask, |cs|);
          EvenSparseRest(cs[1..], env, Indices(first.mask));
        } else {
          EvenAndRest(cs[1..], env, first.mask, first.surv);
        }
      }
    }
  }

  /** The survivor list after a constant even run: untouched, or all rows. */
  predicate KeptOrFull(after: seq<nat>, before: seq<nat>) {
    after == before || after == [0, 1]
  }

  lemma ConstParts(cs: seq<Expr>, w: seq<bool>, env: Env)
    requires cs != [] && ReadOnceAll(cs) && Has(env, ConstAll(cs, w))
    ensures Has(env, Const(cs[0], w)) && Has(env, ConstAll(cs[1..], w))
  {
    HasParts(env, Const(cs[0], w), ConstAll(cs[1..], w));
  }

  /** Under a constant even assignment the mask is right and the list is kept or filled. */
  lemma {:induction false} ConstKeeps(e: Expr, w: seq<bool>, env: Env, surv: seq<nat>)
    requires Witness(env) && ReadOnce(e) && NonEmpty(e) && EvenMask(w) && Has(env, Const(e, w))
    ensures Go(e, env, surv).mask == w
    ensures KeptOrFull(Go(e, env, surv).surv, surv)
    decreases e, 1
  {
    match e
    case Leaf(p) => assert p in Const(e, w);
    case NotOf(c) => ConstKeeps(c, NotRows(w), env, surv);
    case AnyOf(cs) =>
      ConstParts(cs, w, env);
      ConstKeeps(cs[0], w, env, surv);
      ConstKeepsOr(cs[1..], w, env, Go(cs[0], env, surv).surv);
    case AllOf(cs) =>
      ConstParts(cs, w, env);
      ConstKeeps(cs[0], w, env, surv);
      if |cs| > 1 {
        AlwaysSparse(env, w, |cs|);
        if w == BOTH {
          assert Indices(w) == [0, 1];
          ConstKeepsSparse(cs[1..], env, [0, 1]);
          assert FromIndices([0, 1], 2) == w;
        } else {
          assert w == NoRows(2);
        }
      }
  }

  lemma {:induction false} ConstKeepsOr(cs: seq<Expr>, w: seq<bool>, env: Env, surv: seq<nat>)
    requires ReadOnceAll(cs) && (forall k | 0 <= k < |cs| :: NonEmpty(cs[k]))
    requires Witness(env) && EvenMask(w) && Has(env, ConstAll(cs, w))
    ensures OrRest(cs, env, w, surv).mask == w && KeptOrFull(OrRest(cs, env, w, surv).surv, surv)
    decreases cs, 0
  {
    if cs != [] {
      ConstParts(cs, w, env);
      ConstKeeps(cs[0], w, env, surv);
      var r := Go(cs[0], env, surv);
      assert OrRows(w, r.mask) == w;
      ConstKeepsOr(cs[1..], w, env, r.surv);
    }
  }

  lemma {:induction false} ConstKeepsSparse(cs: seq<Expr>, env: Env, surv: seq<nat>)
    requires ReadOnceAll(cs) && (forall k | 0 <= k < |cs| :: NonEmpty(cs[k]))
    requires Witness(env) && Has(env, ConstAll(cs, BOTH)) && (surv == [0] || surv == [0, 1])
    ensures KeptOrFull(SparseRest(cs, env, surv), surv)
    decreases cs, 0
  {
    if cs != [] {
      ConstParts(cs, BOTH, env);
      ConstKeeps(cs[0], BOTH, env, surv);
      var r := Go(cs[0], env, surv);
      FilterEven(r.surv, r.mask);
      assert Filter(r.surv, r.mask) == r.surv;
      ConstKeepsSparse(cs[1..], env, r.surv);
    }
  }

  // ---- Driving the last nested AND -------------------------------------------------------------------

  /** The last child that holds an AND of two or more children. */
  function LastSparse(cs: seq<Expr>): (j: nat)
    requires exists k | 0 <= k < |cs| :: !NoSparse(cs[k])
    ensures j < |cs| && !NoSparse(cs[j]) && forall k | j < k < |cs| :: NoSparse(cs[k])
  {
    var last := |cs| - 1;
    if !NoSparse(cs[last]) then last else LastSparse(cs[..last])
  }

  /** Whether that last AND reaches c's value under an even number of negations. */
  predicate Positive(c: Expr)
    requires !NoSparse(c)
  {
    match c
    case NotOf(d) => !Positive(d)
    case AnyOf(cs) => Positive(cs[LastSparse(cs)])
    case AllOf(cs) => |cs| >= 2 || Positive(cs[0])
  }

  /** Masks that make the last AND in c evaluate to w and let its value through to c. */
  function Drive(c: Expr, w: seq<bool>): (a: Masks)
    requires !NoSparse(c)
    ensures a.Keys == Leaves(c) && Sized(a, |w|)
  {
    match c
    case NotOf(d) => Drive(d, w)
    case AnyOf(cs) => Around(cs, LastSparse(cs), Drive(cs[LastSparse(cs)], w), NoRows(|w|))
    case AllOf(cs) =>
      assert |cs| == 1 ==> LeavesAll(cs[1..]) == {};
      if |cs| >= 2 then ConstAll(cs, w) else Drive(cs[0], w)
  }

  /** c's value when its last AND has the value w. */
  function Driven(c: Expr, w: seq<bool>): seq<bool>
    requires !NoSparse(c)
  {
    if Positive(c) then w else NotRows(w)
  }

  lemma {:induction false} DriveTruth(c: Expr, w: seq<bool>, env: Env, i: nat)
    requires !NoSparse(c) && ReadOnce(c) && NonEmpty(c) && |w| == env.m && Has(env, Drive(c, w)) && i < env.m
    ensures TruthAt(c, env, i) == Driven(c, w)[i]
  {
    match c
    case NotOf(d) => DriveTruth(d, w, env, i);
    case AnyOf(cs) =>
      var j := LastSparse(cs);
      ChildReadOnce(cs, j);
      AroundTruth(cs, j, Drive(cs[j], w), NoRows(|w|), env, i);
      DriveTruth(cs[j], w, env, i);
    case AllOf(cs) =>
      if |cs| >= 2 {
        ConstTruth(c, w, env, i);
      } else {
        ChildReadOnce(cs, 0);
        DriveTruth(cs[0], w, env, i);
      }
  }

  lemma {:induction false} SparseSame(cs: seq<Expr>, w: seq<bool>, env: Env)
    requires |w| == env.m && forall k | 0 <= k < |cs| :: NoSparse(cs[k]) && Safe(cs[k]) && Truth(cs[k], env) == w
    ensures SparseRest(cs, env, Indices(w)) == Indices(w)
    decreases |cs|
  {
    if cs != [] && Indices(w) != [] {
      SafeExact(cs[0], env, Indices(w));
      FilterIndices(w, w);
      assert AndRows(w, w) == w;
      SparseSame(cs[1..], w, env);
    }
  }

  lemma {:induction false} OrDrive(cs: seq<Expr>, j: nat, env: Env, acc: seq<bool>, surv: seq<nat>, s: seq<nat>)
    requires |acc| == env.m && j < |cs|
    requires forall before: seq<nat> :: Go(cs[j], env, before).surv == s
    requires forall k | j < k < |cs| :: NoSparse(cs[k]) && Safe(cs[k])
    ensures OrRest(cs, env, acc, surv).surv == s
    decreases |cs|
  {
    var r := Go(cs[0], env, surv);
    if j == 0 {
      OrRestExact(cs[1..], env, OrRows(acc, r.mask), s);
    } else {
      OrDrive(cs[1..], j - 1, env, OrRows(acc, r.mask), r.surv, s);
    }
  }

  /** An AND whose first child has this mask goes through the survivor list, with a row in it. */
  ghost predicate Lists(env: Env, w: seq<bool>) {
    env.o.selection && 0 < Count(w) <= env.Threshold()
  }

  /** Whatever the shared list held, evaluating c leaves the rows of its last AND in it. */
  lemma {:induction false} DriveSurvivors(c: Expr, w: seq<bool>, env: Env, surv: seq<nat>)
    requires !NoSparse(c) && Safe(c) && ReadOnce(c) && NonEmpty(c) && Has(env, Drive(c, w))
    requires |w| == env.m && Lists(env, w)
    ensures Go(c, env, surv).surv == Indices(w)
    decreases c
  {
    match c
    case NotOf(d) => DriveSurvivors(d, w, env, surv);
    case AnyOf(cs) =>
      var j := LastSparse(cs);
      ChildReadOnce(cs, j);
      DrivenPart(cs, j, w, env);
      forall before: seq<nat> ensures Go(cs[j], env, before).surv == Indices(w) {
        DriveSurvivors(cs[j], w, env, before);
      }
      var first := Go(cs[0], env, surv);
      if j == 0 {
        OrRestExact(cs[1..], env, first.mask, first.surv);
      } else {
        OrDrive(cs[1..], j - 1, env, first.mask, first.surv, Indices(w));
      }
    case AllOf(cs) =>
      if |cs| == 1 {
        ChildReadOnce(cs, 0);
        DriveSurvivors(cs[0], w, env, surv);
      } else {
        ConstAllTruth(cs, w, env);
        SafeExact(cs[0], env, surv);
        SparseSame(cs[1..], w, env);
      }
  }

  lemma ConstAllTruth(cs: seq<Expr>, w: seq<bool>, env: Env)
    requires ReadOnceAll(cs) && (forall k | 0 <= k < |cs| :: NonEmpty(cs[k]))
    requires |w| == env.m && Has(env, ConstAll(cs, w))
    ensures forall k | 0 <= k < |cs| :: Truth(cs[k], env) == w
  {
    forall k, i: nat | 0 <= k < |cs| && i < env.m ensures TruthAt(cs[k], env, i) == w[i] { ConstTruthAll(cs, w, env, i); }
  }

  lemma {:induction false} DrivenPart(cs: seq<Expr>, j: nat, w: seq<bool>, env: Env)
    requires ReadOnceAll(cs) && j < |cs| && !NoSparse(cs[j])
    requires Has(env, Around(cs, j, Drive(cs[j], w), NoRows(|w|)))
    ensures Has(env, Drive(cs[j], w))
    decreases |cs|
  {
    var a := Drive(cs[j], w);
    if j == 0 {
      HasParts(env, a, ConstAll(cs[1..], NoRows(|w|)));
    } else {
      HasParts(env, Const(cs[0], NoRows(|w|)), Around(cs[1..], j - 1, a, NoRows(|w|)));
      DrivenPart(cs[1..], j - 1, w, env);
    }
  }

  // ---- Breaking an unsafe expression -----------------------------------------------------------------

  function FirstUnsafe(cs: seq<Expr>): (j: nat)
    requires exists k | 0 <= k < |cs| :: !Safe(cs[k])
    ensures j < |cs| && !Safe(cs[j])
  {
    if !Safe(cs[0]) then 0 else 1 + FirstUnsafe(cs[1..])
  }

  /** A first child's mask, and the mask to drive a later child's last AND to. */
  datatype Clash = Clash(u: seq<bool>, w: seq<bool>)

  /** What to use where the last AND arrives as it is, and where it arrives negated. */
  datatype Clashes = Clashes(m: nat, plain: Clash, negated: Clash) {
    function Of(positive: bool): Clash {
      if positive then plain else negated
    }

    predicate Sized() {
      |plain.u| == |plain.w| == |negated.u| == |negated.w| == m
    }
  }

  /** Masks under which e evaluates wrongly. */
  function Break(e: Expr, t: Clashes): (a: Masks)
    requires !Safe(e)
    ensures a.Keys == Leaves(e) && (t.Sized() ==> Sized(a, t.m))
  {
    match e
    case NotOf(c) => Break(c, t)
    case AnyOf(cs) => Around(cs, FirstUnsafe(cs), Break(cs[FirstUnsafe(cs)], t), NoRows(t.m))
    case AllOf(cs) =>
      if exists k | 0 <= k < |cs| :: !Safe(cs[k]) then
        Around(cs, FirstUnsafe(cs), Break(cs[FirstUnsafe(cs)], t), AllRows(t.m))
      else
        // Some child behind the first holds an AND: let it overwrite the list that the first child filled.
        BreakHere(cs, t)
  }

  function LaterSparse(cs: seq<Expr>): (j: nat)
    requires exists k | 1 <= k < |cs| :: !NoSparse(cs[k])
    ensures j < |cs[1..]| && !NoSparse(cs[1..][j])
    ensures forall k | j < k < |cs[1..]| :: NoSparse(cs[1..][k])
  {
    var k :| 1 <= k < |cs| && !NoSparse(cs[k]);
    assert !NoSparse(cs[1..][k - 1]);
    LastSparse(cs[1..])
  }

  function BreakHere(cs: seq<Expr>, t: Clashes): (a: Masks)
    requires |cs| >= 2 && exists k | 1 <= k < |cs| :: !NoSparse(cs[k])
    ensures a.Keys == LeavesAll(cs) && (t.Sized() ==> Sized(a, t.m))
  {
    var j := LaterSparse(cs);
    var d := cs[1..][j];
    var clash := t.Of(Positive(d));
    Const(cs[0], clash.u) + Around(cs[1..], j, Drive(d, clash.w), AllRows(t.m))
  }

  lemma {:induction false} AroundHas(cs: seq<Expr>, j: nat, a: Masks, v: seq<bool>, env: Env, k: nat)
    requires ReadOnceAll(cs) && j < |cs| && a.Keys == Leaves(cs[j]) && Has(env, Around(cs, j, a, v))
    requires k < |cs| && k != j
    ensures Has(env, Const(cs[k], v))
    decreases cs
  {
    if j == 0 {
      HasParts(env, a, ConstAll(cs[1..], v));
      ConstHas(cs[1..], v, env, k - 1);
    } else {
      HasParts(env, Const(cs[0], v), Around(cs[1..], j - 1, a, v));
      if k != 0 { AroundHas(cs[1..], j - 1, a, v, env, k - 1); }
    }
  }

  lemma {:induction false} ConstHas(cs: seq<Expr>, v: seq<bool>, env: Env, k: nat)
    requires ReadOnceAll(cs) && k < |cs| && Has(env, ConstAll(cs, v))
    ensures Has(env, Const(cs[k], v))
    decreases |cs|
  {
    ConstParts(cs, v, env);
    if k != 0 { ConstHas(cs[1..], v, env, k - 1); }
  }

  lemma AroundEven(cs: seq<Expr>, j: nat, a: Masks, v: seq<bool>, env: Env)
    requires Witness(env) && ReadOnceAll(cs) && (forall k | 0 <= k < |cs| :: NonEmpty(cs[k])) && EvenMask(v)
    requires j < |cs| && a.Keys == Leaves(cs[j]) && Has(env, Around(cs, j, a, v))
    ensures forall k | 0 <= k < |cs| && k != j :: Even(cs[k], env)
  {
    forall k | 0 <= k < |cs| && k != j ensures Even(cs[k], env) {
      AroundHas(cs, j, a, v, env, k);
      ChildReadOnce(cs, k);
      forall surv: seq<nat> | EvenList(surv)
        ensures EvenMask(Go(cs[k], env, surv).mask) && EvenList(Go(cs[k], env, surv).surv)
      {
        ConstKeeps(cs[k], v, env, surv);
      }
    }
  }

  /** A positive last AND refills the list, so the rows the first child excluded come back. */
  lemma {:induction false} RefillRest(cs: seq<Expr>, j: nat, env: Env, surv: seq<nat>)
    requires ReadOnceAll(cs) && (forall k | 0 <= k < |cs| :: NonEmpty(cs[k]) && Safe(cs[k]))
    requires j < |cs| && !NoSparse(cs[j]) && Positive(cs[j])
    requires Witness(env) && Has(env, Around(cs, j, Drive(cs[j], BOTH), BOTH)) && (surv == [0] || surv == [0, 1])
    ensures SparseRest(cs, env, surv) == [0, 1]
    decreases |cs|
  {
    assert Indices(BOTH) == [0, 1] by { AlwaysSparse(env, BOTH, 2); }
    FilterEven(surv, BOTH);
    assert Filter(surv, BOTH) == surv && Filter([0, 1], BOTH) == [0, 1];
    if j == 0 {
      HasParts(env, Drive(cs[0], BOTH), ConstAll(cs[1..], BOTH));
      DriveTruth(cs[0], BOTH, env, 0);
      DriveTruth(cs[0], BOTH, env, 1);
      SafeExact(cs[0], env, surv);
      assert Go(cs[0], env, surv).mask == BOTH;
      DriveSurvivors(cs[0], BOTH, env, surv);
      ConstKeepsSparse(cs[1..], env, [0, 1]);
    } else {
      HasParts(env, Const(cs[0], BOTH), Around(cs[1..], j - 1, Drive(cs[j], BOTH), BOTH));
      ConstKeeps(cs[0], BOTH, env, surv);
      RefillRest(cs[1..], j - 1, env, Go(cs[0], env, surv).surv);
    }
  }

  /** A negative last AND leaves rows in the list that its own child mask excludes. */
  lemma {:induction false} DrainRest(cs: seq<Expr>, j: nat, env: Env)
    requires ReadOnceAll(cs) && (forall k | 0 <= k < |cs| :: NonEmpty(cs[k]) && Safe(cs[k]))
    requires j < |cs| && !NoSparse(cs[j]) && !Positive(cs[j])
    requires Witness(env) && Has(env, Around(cs, j, Drive(cs[j], UPPER), BOTH))
    ensures SparseRest(cs, env, [0, 1]) == []
    decreases |cs|
  {
    if j == 0 {
      HasParts(env, Drive(cs[0], UPPER), ConstAll(cs[1..], BOTH));
      DriveTruth(cs[0], UPPER, env, 0);
      SafeExact(cs[0], env, [0, 1]);
      DriveSurvivors(cs[0], UPPER, env, [0, 1]);
      assert Indices(UPPER) == [0] by { AlwaysSparse(env, UPPER, 2); }
      FilterEven([0], Go(cs[0], env, [0, 1]).mask);
    } else {
      HasParts(env, Const(cs[0], BOTH), Around(cs[1..], j - 1, Drive(cs[j], UPPER), BOTH));
      ConstKeeps(cs[0], BOTH, env, [0, 1]);
      FilterEven([0, 1], BOTH);
      assert Filter([0, 1], BOTH) == [0, 1];
      DrainRest(cs[1..], j - 1, env);
    }
  }

  ghost predicate Uneven(e: Expr, env: Env)
    requires env.m == 2
  {
    TruthAt(e, env, 0) != TruthAt(e, env, 1)
  }

  /** The masks of the first child and of the last AND behind it. */
  lemma BrokenHereTruth(cs: seq<Expr>, j: nat, u: seq<bool>, w: seq<bool>, env: Env, i: nat)
    requires |cs| >= 2 && ReadOnceAll(cs) && (forall k | 0 <= k < |cs| :: NonEmpty(cs[k]))
    requires j < |cs[1..]| && !NoSparse(cs[1..][j]) && i < env.m == |u| == |w|
    requires Has(env, Const(cs[0], u)) && Has(env, Around(cs[1..], j, Drive(cs[1..][j], w), AllRows(env.m)))
    ensures TruthAt(cs[0], env, i) == u[i]
    ensures TruthAt(AllOf(cs), env, i) == (u[i] && Driven(cs[1..][j], w)[i])
  {
    var rest := cs[1..];
    ConstTruth(cs[0], u, env, i);
    ChildReadOnce(rest, j);
    AroundTruth(rest, j, Drive(rest[j], w), AllRows(env.m), env, i);
    DriveTruth(rest[j], w, env, i);
    SplitFirst(cs, env, i);
    assert AllTruth(rest, env, i) == TruthAt(rest[j], env, i);
  }

  /** A sparse AND whose survivor loop ends with an even list is even. */
  lemma EvenSparse(cs: seq<Expr>, u: seq<bool>, env: Env)
    requires Witness(env) && |cs| >= 2 && Safe(cs[0]) && Truth(cs[0], env) == u
    requires u != NONE && EvenList(SparseRest(cs[1..], env, Indices(u)))
    ensures Even(AllOf(cs), env)
  {
    forall surv: seq<nat> | EvenList(surv)
      ensures EvenMask(Go(AllOf(cs), env, surv).mask) && EvenList(Go(AllOf(cs), env, surv).surv)
    {
      SafeExact(cs[0], env, surv);
      AlwaysSparse(env, u, |cs|);
    }
  }

  ghost predicate BadAnd(cs: seq<Expr>, j: nat) {
    && |cs| >= 2 && ReadOnceAll(cs) && (forall k | 0 <= k < |cs| :: NonEmpty(cs[k]) && Safe(cs[k]))
    && j < |cs[1..]| && !NoSparse(cs[1..][j])
  }

  lemma BrokenPositive(cs: seq<Expr>, j: nat, env: Env)
    requires Witness(env) && BadAnd(cs, j) && Positive(cs[1..][j])
    requires Has(env, Const(cs[0], UPPER)) && Has(env, Around(cs[1..], j, Drive(cs[1..][j], BOTH), BOTH))
    ensures Even(AllOf(cs), env) && Uneven(AllOf(cs), env)
  {
    assert AllRows(2) == BOTH;
    BrokenHereTruth(cs, j, UPPER, BOTH, env, 0);
    BrokenHereTruth(cs, j, UPPER, BOTH, env, 1);
    assert Indices(UPPER) == [0] by { AlwaysSparse(env, UPPER, 2); }
    RefillRest(cs[1..], j, env, [0]);
    ConstRows(cs[0], UPPER, env);
    EvenSparse(cs, UPPER, env);
  }

  lemma BrokenNegative(cs: seq<Expr>, j: nat, env: Env)
    requires Witness(env) && BadAnd(cs, j) && !Positive(cs[1..][j])
    requires Has(env, Const(cs[0], BOTH)) && Has(env, Around(cs[1..], j, Drive(cs[1..][j], UPPER), BOTH))
    ensures Even(AllOf(cs), env) && Uneven(AllOf(cs), env)
  {
    assert AllRows(2) == BOTH;
    BrokenHereTruth(cs, j, BOTH, UPPER, env, 0);
    BrokenHereTruth(cs, j, BOTH, UPPER, env, 1);
    assert Indices(BOTH) == [0, 1] by { AlwaysSparse(env, BOTH, 2); }
    DrainRest(cs[1..], j, env);
    ConstRows(cs[0], BOTH, env);
    EvenSparse(cs, BOTH, env);
  }

  lemma ConstRows(e: Expr, w: seq<bool>, env: Env)
    requires ReadOnce(e) && NonEmpty(e) && |w| == env.m && Has(env, Const(e, w))
    ensures Truth(e, env) == w
  {
    forall i: nat | i < env.m ensures TruthAt(e, env, i) == w[i] { ConstTruth(e, w, env, i); }
  }

  /** With two rows and every AND sparse: the first child keeps one row and the last AND refills the list, or the
      last AND drains it. */
  const EVEN := Clashes(2, Clash(UPPER, BOTH), Clash(BOTH, UPPER))

  lemma BrokenHere(cs: seq<Expr>, env: Env)
    requires Witness(env) && ReadOnceAll(cs) && (forall k | 0 <= k < |cs| :: NonEmpty(cs[k]) && Safe(cs[k]))
    requires |cs| >= 2 && exists k | 1 <= k < |cs| :: !NoSparse(cs[k])
    requires Has(env, BreakHere(cs, EVEN))
    ensures Even(AllOf(cs), env) && Uneven(AllOf(cs), env)
  {
    var rest := cs[1..];
    var j := LaterSparse(cs);
    assert AllRows(2) == BOTH;
    if Positive(rest[j]) {
      HasParts(env, Const(cs[0], UPPER), Around(rest, j, Drive(rest[j], BOTH), BOTH));
      BrokenPositive(cs, j, env);
    } else {
      HasParts(env, Const(cs[0], BOTH), Around(rest, j, Drive(rest[j], UPPER), BOTH));
      BrokenNegative(cs, j, env);
    }
  }

  /** Under its breaking masks an unsafe expression treats two rows alike that its truth tells apart. */
  lemma {:induction false} Broken(e: Expr, env: Env)
    requires Witness(env) && !Safe(e) && ReadOnce(e) && NonEmpty(e) && Has(env, Break(e, EVEN))
    ensures Even(e, env) && Uneven(e, env)
  {
    match e
    case NotOf(c) =>
      Broken(c, env);
      assert Even(e, env) by {
        forall surv: seq<nat> | EvenList(surv)
          ensures EvenMask(Go(e, env, surv).mask) && EvenList(Go(e, env, surv).surv)
        {
          assert EvenMask(Go(c, env, surv).mask);
        }
      }
    case AnyOf(cs) =>
      var j := FirstUnsafe(cs);
      assert NoRows(2) == NONE;
      BrokenChild(cs, j, NONE, env);
      Broken(cs[j], env);
      EvenOr(cs, env);
    case AllOf(cs) =>
      if exists k | 0 <= k < |cs| :: !Safe(cs[k]) {
        var j := FirstUnsafe(cs);
        assert AllRows(2) == BOTH;
        BrokenChild(cs, j, BOTH, env);
        Broken(cs[j], env);
        EvenAnd(cs, env);
      } else {
        BrokenHere(cs, env);
      }
  }

  lemma BrokenChild(cs: seq<Expr>, j: nat, v: seq<bool>, env: Env)
    requires Witness(env) && ReadOnceAll(cs) && (forall k | 0 <= k < |cs| :: NonEmpty(cs[k])) && EvenMask(v)
    requires j < |cs| && !Safe(cs[j]) && Has(env, Around(cs, j, Break(cs[j], EVEN), v))
    ensures ReadOnce(cs[j]) && Has(env, Break(cs[j], EVEN))
    ensures forall k | 0 <= k < |cs| && k != j :: Even(cs[k], env)
    ensures forall i: nat, k | i < 2 && 0 <= k < |cs| && k != j :: TruthAt(cs[k], env, i) == v[i]
  {
    hide Break, Safe, NonEmpty, EVEN, Go, TruthAt, ReadOnce;
    ChildReadOnce(cs, j);
    AroundEven(cs, j, Break(cs[j], EVEN), v, env);
    AroundTruth(cs, j, Break(cs[j], EVEN), v, env, 0);
    AroundTruth(cs, j, Break(cs[j], EVEN), v, env, 1);
  }

  /** With every AND sparse an unsafe expression goes wrong on two rows, from an empty survivor list. */
  lemma EvenFails(e: Expr, env: Env)
    requires ReadOnce(e) && NonEmpty(e) && !Safe(e) && Witness(env) && Has(env, Break(e, EVEN))
    ensures Go(e, env, []).mask != Truth(e, env)
  {
    hide Break, Go, Safe, NonEmpty, ReadOnce, TruthAt, EVEN;
    Broken(e, env);
    assert EvenList([]);
    assert EvenMask(Go(e, env, []).mask);
    assert Truth(e, env)[0] == TruthAt(e, env, 0) && Truth(e, env)[1] == TruthAt(e, env, 1);
  }

  lemma UnsafeFails(e: Expr) returns (env: Env)
    requires ReadOnce(e) && NonEmpty(e) && !Safe(e)
    ensures Witness(env) && Go(e, env, []).mask != Truth(e, env)
  {
    env := Env(Break(e, EVEN), 2, Options(true, 1.0));
    EvenFails(e, env);
  }

  /** The evaluator is exact on every morsel, threshold, predicate mask and leftover survivor list
      exactly when no AND of two or more children lies inside a non-first child of an AND. */
  lemma EvalExactIff(e: Expr)
    requires ReadOnce(e) && NonEmpty(e)
    ensures Safe(e) <==>
            forall env: Env, surv: seq<nat> | 0.0 <= env.o.fraction <= 1.0 :: Go(e, env, surv).mask == Truth(e, env)
  {
    if Safe(e) {
      forall env: Env, surv: seq<nat> | 0.0 <= env.o.fraction <= 1.0 ensures Go(e, env, surv).mask == Truth(e, env) {
        SafeExact(e, env, surv);
      }
    } else {
      var env := UnsafeFails(e);
    }
  }
}
