/** `EvalExactness` setting by setting.  A threshold below the whole morsel sends ANDs with few rows through the
    survivor list and leaves ANDs of constants alone, so the wrong mask of an inner AND reaches the root as it is. */
module EvalSettings {
  import opened ByteMask
  import opened Casts
  import opened MaskKernels
  import opened EvalTree
  import opened EvalExactness
  import opened Morsels

  /** A list of one row is within the threshold and the whole morsel is not. */
  ghost predicate Partial(env: Env) {
    env.o.selection && 1 <= env.Threshold() < env.m
  }

  function Only(r: nat, m: nat): (rows: seq<bool>)
    ensures |rows| == m
  {
    seq(m, i => i == r)
  }

  lemma {:induction false} OnlyBelow(r: nat, m: nat, k: nat)
    requires r < m && k <= m
    ensures IndicesBelow(Only(r, m), k) == if r < k then [r] else []
  {
    if k != 0 { OnlyBelow(r, m, k - 1); }
  }

  lemma {:induction false} AllBelow(m: nat, k: nat)
    requires k <= m
    ensures |IndicesBelow(AllRows(m), k)| == k
  {
    if k != 0 { AllBelow(m, k - 1); }
  }

  lemma OnlyLists(env: Env, r: nat)
    requires Partial(env) && r < env.m
    ensures Indices(Only(r, env.m)) == [r] && Lists(env, Only(r, env.m))
  {
    OnlyBelow(r, env.m, env.m);
  }

  lemma AllDense(env: Env, width: nat)
    requires Partial(env)
    ensures !env.Sparse(AllRows(env.m), width)
  {
    AllBelow(env.m, env.m);
  }

  // ---- Constant parts are quiet ------------------------------------------------------------------------------

  predicate Constant(v: seq<bool>) {
    v == NoRows(|v|) || v == AllRows(|v|)
  }

  lemma OrConstant(v: seq<bool>, rows: seq<bool>)
    requires |v| == |rows|
    ensures OrRows(v, v) == v && OrRows(rows, NoRows(|v|)) == rows && OrRows(NoRows(|v|), rows) == rows
    ensures AndRows(rows, AllRows(|v|)) == rows && AndRows(AllRows(|v|), rows) == rows
    ensures NotRows(NoRows(|v|)) == AllRows(|v|) && NotRows(AllRows(|v|)) == NoRows(|v|)
    ensures NotRows(NotRows(rows)) == rows
  {
  }

  lemma {:induction false} KeepAll(surv: seq<nat>, m: nat)
    requires forall r | r in surv :: r < m
    ensures Filter(surv, AllRows(m)) == surv
  {
    if surv != [] {
      var last := |surv| - 1;
      assert surv[last] in surv;
      forall r | r in surv[..last] ensures r < m { assert r in surv; }
      KeepAll(surv[..last], m);
      assert surv[..last] + [surv[last]] == surv;
    }
  }

  /** A part with constant masks has its value and leaves the survivor list alone. */
  lemma {:induction false} Quiet(e: Expr, v: seq<bool>, env: Env, surv: seq<nat>)
    requires Partial(env) && ReadOnce(e) && NonEmpty(e)
    requires |v| == env.m && Constant(v) && Has(env, Const(e, v))
    ensures Go(e, env, surv) == Out(v, surv)
    decreases e, 1
  {
    OrConstant(v, v);
    match e
    case Leaf(p) => assert p in Const(e, v);
    case NotOf(c) => Quiet(c, NotRows(v), env, surv);
    case AnyOf(cs) =>
      ConstParts(cs, v, env);
      Quiet(cs[0], v, env, surv);
      QuietOr(cs[1..], v, env, v, surv);
    case AllOf(cs) =>
      ConstParts(cs, v, env);
      Quiet(cs[0], v, env, surv);
      AllDense(env, |cs|);
      if v == NoRows(|v|) { NoIndices(v); NoneListed(env.m, env.m); }
      QuietAnd(cs[1..], v, env, v, surv);
  }

  lemma {:induction false} NoneListed(m: nat, k: nat)
    ensures IndicesBelow(NoRows(m), k) == []
  {
    if k != 0 { NoneListed(m, k - 1); }
  }

  lemma {:induction false} QuietOr(cs: seq<Expr>, v: seq<bool>, env: Env, acc: seq<bool>, surv: seq<nat>)
    requires Partial(env) && ReadOnceAll(cs) && (forall k | 0 <= k < |cs| :: NonEmpty(cs[k]))
    requires |v| == env.m == |acc| && Constant(v) && Has(env, ConstAll(cs, v)) && OrRows(acc, v) == acc
    ensures OrRest(cs, env, acc, surv) == Out(acc, surv)
    decreases cs, 0
  {
    if cs != [] {
      ConstParts(cs, v, env);
      Quiet(cs[0], v, env, surv);
      QuietOr(cs[1..], v, env, acc, surv);
    }
  }

  lemma {:induction false} QuietAnd(cs: seq<Expr>, v: seq<bool>, env: Env, acc: seq<bool>, surv: seq<nat>)
    requires Partial(env) && ReadOnceAll(cs) && (forall k | 0 <= k < |cs| :: NonEmpty(cs[k]))
    requires |v| == env.m == |acc| && Constant(v) && Has(env, ConstAll(cs, v)) && AndRows(acc, v) == acc
    ensures AndRest(cs, env, acc, surv) == Out(acc, surv)
    decreases cs, 0
  {
    if cs != [] {
      ConstParts(cs, v, env);
      Quiet(cs[0], v, env, surv);
      QuietAnd(cs[1..], v, env, acc, surv);
    }
  }

  lemma {:induction false} QuietSparse(cs: seq<Expr>, env: Env, surv: seq<nat>)
    requires Partial(env) && ReadOnceAll(cs) && (forall k | 0 <= k < |cs| :: NonEmpty(cs[k]))
    requires Has(env, ConstAll(cs, AllRows(env.m))) && forall r | r in surv :: r < env.m
    ensures SparseRest(cs, env, surv) == surv
    decreases |cs|
  {
    if cs != [] && surv != [] {
      var v := AllRows(env.m);
      ConstParts(cs, v, env);
      Quiet(cs[0], v, env, surv);
      KeepAll(surv, env.m);
      QuietSparse(cs[1..], env, surv);
    }
  }

  // ---- The wrong mask --------------------------------------------------------------------------------------

  /** Row 0 passes the first child and row 1 the last AND. */
  function Apart(m: nat): Clashes {
    Clashes(m, Clash(Only(0, m), Only(1, m)), Clash(Only(0, m), Only(1, m)))
  }

  /** e evaluates to `got` whatever the list held, and that is wrong. */
  ghost predicate Wrong(e: Expr, env: Env, got: seq<bool>) {
    (forall surv: seq<nat> :: Go(e, env, surv).mask == got) && got != Truth(e, env)
  }

  lemma DrivenLists(c: Expr, env: Env)
    requires Partial(env) && !NoSparse(c) && Safe(c) && ReadOnce(c) && NonEmpty(c)
    requires Has(env, Drive(c, Only(1, env.m)))
    ensures var r := Go(c, env, [0]); Filter(r.surv, r.mask) == if Positive(c) then [1] else []
  {
    hide Go, Drive, NoSparse, Safe, ReadOnce, NonEmpty, TruthAt, Has, Lists, Positive;
    var w := Only(1, env.m);
    OnlyLists(env, 1);
    DriveSurvivors(c, w, env, [0]);
    SafeExact(c, env, [0]);
    DriveTruth(c, w, env, 1);
    assert [1][..0] == [];
  }

  /** The driven child overwrites the list with row 1 and then filters it by its own mask. */
  lemma {:induction false} Overwritten(cs: seq<Expr>, j: nat, env: Env)
    requires Partial(env) && ReadOnceAll(cs) && (forall k | 0 <= k < |cs| :: NonEmpty(cs[k]) && Safe(cs[k]))
    requires j < |cs| && !NoSparse(cs[j])
    requires Has(env, Around(cs, j, Drive(cs[j], Only(1, env.m)), AllRows(env.m)))
    ensures SparseRest(cs, env, [0]) == if Positive(cs[j]) then [1] else []
    decreases |cs|
  {
    var v, w := AllRows(env.m), Only(1, env.m);
    if j == 0 {
      HasParts(env, Drive(cs[0], w), ConstAll(cs[1..], v));
      DrivenLists(cs[0], env);
      if Positive(cs[0]) { QuietSparse(cs[1..], env, [1]); }
    } else {
      HasParts(env, Const(cs[0], v), Around(cs[1..], j - 1, Drive(cs[j], w), v));
      Quiet(cs[0], v, env, [0]);
      KeepAll([0], env.m);
      Overwritten(cs[1..], j - 1, env);
    }
  }

  lemma WrongHere(cs: seq<Expr>, env: Env) returns (got: seq<bool>)
    requires Partial(env) && ReadOnceAll(cs) && (forall k | 0 <= k < |cs| :: NonEmpty(cs[k]) && Safe(cs[k]))
    requires |cs| >= 2 && exists k | 1 <= k < |cs| :: !NoSparse(cs[k])
    requires Has(env, BreakHere(cs, Apart(env.m)))
    ensures |got| == env.m && Wrong(AllOf(cs), env, got)
  {
    var j := LaterSparse(cs);
    var u, w := Only(0, env.m), Only(1, env.m);
    HasParts(env, Const(cs[0], u), Around(cs[1..], j, Drive(cs[1..][j], w), AllRows(env.m)));
    ConstRows(cs[0], u, env);
    OnlyLists(env, 0);
    Overwritten(cs[1..], j, env);
    var kept := SparseRest(cs[1..], env, [0]);
    got := FromIndices(kept, env.m);
    forall surv: seq<nat> ensures Go(AllOf(cs), env, surv).mask == got { SafeExact(cs[0], env, surv); }
    BrokenHereTruth(cs, j, u, w, env, 0);
    BrokenHereTruth(cs, j, u, w, env, 1);
    assert got[0] != TruthAt(AllOf(cs), env, 0) || got[1] != TruthAt(AllOf(cs), env, 1);
  }

  // ---- Carrying it to the root -------------------------------------------------------------------------------

  lemma {:induction false} OrCarries(cs: seq<Expr>, j: nat, a: Masks, env: Env, acc: seq<bool>, surv: seq<nat>, got: seq<bool>)
    requires Partial(env) && ReadOnceAll(cs) && (forall k | 0 <= k < |cs| :: NonEmpty(cs[k]))
    requires j < |cs| && a.Keys == Leaves(cs[j]) && Has(env, Around(cs, j, a, NoRows(env.m)))
    requires |acc| == env.m == |got| && forall before: seq<nat> :: Go(cs[j], env, before).mask == got
    ensures OrRest(cs, env, acc, surv).mask == OrRows(acc, got)
    decreases |cs|
  {
    var v := NoRows(env.m);
    if j == 0 {
      HasParts(env, a, ConstAll(cs[1..], v));
      OrConstant(v, OrRows(acc, got));
      QuietOr(cs[1..], v, env, OrRows(acc, got), Go(cs[0], env, surv).surv);
    } else {
      HasParts(env, Const(cs[0], v), Around(cs[1..], j - 1, a, v));
      Quiet(cs[0], v, env, surv);
      OrConstant(v, acc);
      OrCarries(cs[1..], j - 1, a, env, acc, surv, got);
    }
  }

  lemma {:induction false} AndCarries(cs: seq<Expr>, j: nat, a: Masks, env: Env, acc: seq<bool>, surv: seq<nat>, got: seq<bool>)
    requires Partial(env) && ReadOnceAll(cs) && (forall k | 0 <= k < |cs| :: NonEmpty(cs[k]))
    requires j < |cs| && a.Keys == Leaves(cs[j]) && Has(env, Around(cs, j, a, AllRows(env.m)))
    requires |acc| == env.m == |got| && forall before: seq<nat> :: Go(cs[j], env, before).mask == got
    ensures AndRest(cs, env, acc, surv).mask == AndRows(acc, got)
    decreases |cs|
  {
    var v := AllRows(env.m);
    if j == 0 {
      HasParts(env, a, ConstAll(cs[1..], v));
      OrConstant(v, AndRows(acc, got));
      QuietAnd(cs[1..], v, env, AndRows(acc, got), Go(cs[0], env, surv).surv);
    } else {
      HasParts(env, Const(cs[0], v), Around(cs[1..], j - 1, a, v));
      Quiet(cs[0], v, env, surv);
      OrConstant(v, acc);
      AndCarries(cs[1..], j - 1, a, env, acc, surv, got);
    }
  }

  lemma AnyCarries(cs: seq<Expr>, j: nat, a: Masks, env: Env, got: seq<bool>)
    requires Partial(env) && ReadOnceAll(cs) && (forall k | 0 <= k < |cs| :: NonEmpty(cs[k]))
    requires j < |cs| && a.Keys == Leaves(cs[j]) && Has(env, Around(cs, j, a, NoRows(env.m)))
    requires |got| == env.m && Wrong(cs[j], env, got)
    ensures Wrong(AnyOf(cs), env, got)
  {
    var v := NoRows(env.m);
    OrConstant(v, got);
    forall surv: seq<nat> ensures Go(AnyOf(cs), env, surv).mask == got {
      if j == 0 {
        HasParts(env, a, ConstAll(cs[1..], v));
        QuietOr(cs[1..], v, env, got, Go(cs[0], env, surv).surv);
      } else {
        HasParts(env, Const(cs[0], v), Around(cs[1..], j - 1, a, v));
        Quiet(cs[0], v, env, surv);
        OrCarries(cs[1..], j - 1, a, env, v, surv, got);
      }
    }
    forall i: nat | i < env.m ensures TruthAt(AnyOf(cs), env, i) == TruthAt(cs[j], env, i) {
      AroundTruth(cs, j, a, v, env, i);
    }
    assert Truth(AnyOf(cs), env) == Truth(cs[j], env);
  }

  /** An AND whose first child has a wrong mask, whichever path it takes. */
  lemma FirstCarries(cs: seq<Expr>, env: Env, surv: seq<nat>, got: seq<bool>)
    requires Partial(env) && cs != [] && ReadOnceAll(cs) && (forall k | 0 <= k < |cs| :: NonEmpty(cs[k]))
    requires Has(env, ConstAll(cs[1..], AllRows(env.m)))
    requires |got| == env.m && Go(cs[0], env, surv).mask == got
    ensures Go(AllOf(cs), env, surv).mask == got
  {
    var v := AllRows(env.m);
    OrConstant(v, got);
    NoIndices(got);
    IndicesExact(got);
    QuietSparse(cs[1..], env, Indices(got));
    FromIndicesExact(got);
    QuietAnd(cs[1..], v, env, got, Go(cs[0], env, surv).surv);
  }

  lemma AllCarries(cs: seq<Expr>, j: nat, a: Masks, env: Env, got: seq<bool>)
    requires Partial(env) && ReadOnceAll(cs) && (forall k | 0 <= k < |cs| :: NonEmpty(cs[k]))
    requires j < |cs| && a.Keys == Leaves(cs[j]) && Has(env, Around(cs, j, a, AllRows(env.m)))
    requires |got| == env.m && Wrong(cs[j], env, got)
    ensures Wrong(AllOf(cs), env, got)
  {
    var v := AllRows(env.m);
    OrConstant(v, got);
    forall surv: seq<nat> ensures Go(AllOf(cs), env, surv).mask == got {
      if j == 0 {
        HasParts(env, a, ConstAll(cs[1..], v));
        FirstCarries(cs, env, surv, got);
      } else {
        HasParts(env, Const(cs[0], v), Around(cs[1..], j - 1, a, v));
        Quiet(cs[0], v, env, surv);
        AllDense(env, |cs|);
        AndCarries(cs[1..], j - 1, a, env, v, surv, got);
      }
    }
    forall i: nat | i < env.m ensures TruthAt(AllOf(cs), env, i) == TruthAt(cs[j], env, i) {
      AroundTruth(cs, j, a, v, env, i);
    }
    assert Truth(AllOf(cs), env) == Truth(cs[j], env);
  }

  lemma {:induction false} WrongAtRoot(e: Expr, env: Env) returns (got: seq<bool>)
    requires Partial(env) && !Safe(e) && ReadOnce(e) && NonEmpty(e) && Has(env, Break(e, Apart(env.m)))
    ensures |got| == env.m && Wrong(e, env, got)
    decreases e
  {
    match e
    case NotOf(c) =>
      var inner := WrongAtRoot(c, env);
      got := NotRows(inner);
      NotCarries(c, env, inner);
    case AnyOf(cs) =>
      var j := FirstUnsafe(cs);
      ChildReadOnce(cs, j);
      AroundKeeps(cs, j, Break(cs[j], Apart(env.m)), NoRows(env.m), env);
      got := WrongAtRoot(cs[j], env);
      AnyCarries(cs, j, Break(cs[j], Apart(env.m)), env, got);
    case AllOf(cs) =>
      if exists k | 0 <= k < |cs| :: !Safe(cs[k]) {
        var j := FirstUnsafe(cs);
        ChildReadOnce(cs, j);
        AroundKeeps(cs, j, Break(cs[j], Apart(env.m)), AllRows(env.m), env);
        got := WrongAtRoot(cs[j], env);
        AllCarries(cs, j, Break(cs[j], Apart(env.m)), env, got);
      } else {
        got := WrongHere(cs, env);
      }
  }

  lemma NotCarries(c: Expr, env: Env, inner: seq<bool>)
    requires |inner| == env.m && Wrong(c, env, inner)
    ensures Wrong(NotOf(c), env, NotRows(inner))
  {
    assert Truth(NotOf(c), env) == NotRows(Truth(c, env));
    OrConstant(inner, inner);
    OrConstant(inner, Truth(c, env));
  }

  lemma AroundKeeps(cs: seq<Expr>, j: nat, a: Masks, v: seq<bool>, env: Env)
    requires ReadOnceAll(cs) && (forall k | 0 <= k < |cs| :: NonEmpty(cs[k]))
    requires |v| == env.m > 0 && j < |cs| && a.Keys == Leaves(cs[j]) && Has(env, Around(cs, j, a, v))
    ensures Has(env, a)
  {
    AroundTruth(cs, j, a, v, env, 0);
  }

  // ---- The condition -----------------------------------------------------------------------------------------

  /** Whether a full morsel of rows lets an AND keep a survivor list of at least one row. */
  predicate EverLists(o: Options) {
    o.selection && Truncate(o.fraction * MORSEL_ROWS as real) >= 1
  }

  lemma FloorBound(x: real, n: int)
    requires x < n as real
    ensures x.Floor < n
  {
  }

  lemma SmallerProduct(f: real, x: real, y: real)
    requires 0.0 <= f && 0.0 <= x <= y
    ensures 0.0 <= f * x <= f * y
  {
  }

  /** An AND of two or more children lists survivors when no more rows are left than the fraction of the morsel. */
  lemma SparseSays(env: Env, first: seq<bool>, width: nat)
    requires env.o.fraction >= 0.0
    ensures env.Sparse(first, width) <==> env.o.selection && width >= 2 && Count(first) as real <= env.o.fraction * env.m as real
  {
    var x := env.o.fraction * env.m as real;
    SmallerProduct(env.o.fraction, env.m as real, env.m as real);
    AtMostFloor(Count(first), x);
  }

  /** A setting ever lists a row if the fraction of a morsel of 2048 rows is a row at least. */
  lemma EverListsSays(o: Options)
    requires o.fraction >= 0.0
    ensures EverLists(o) <==> o.selection && o.fraction * 2048.0 >= 1.0
  {
    SmallerProduct(o.fraction, 2048.0, 2048.0);
    AtMostFloor(1, o.fraction * 2048.0);
  }

  lemma AtMostFloor(n: nat, x: real)
    requires x >= 0.0
    ensures n <= x.Floor <==> n as real <= x
  {
    if n <= x.Floor { assert n as real <= x.Floor as real; }
    if n > x.Floor { assert n as real >= (x.Floor + 1) as real; }
  }

  /** A smaller morsel's threshold is no larger. */
  lemma NeverLists(env: Env)
    requires !EverLists(env.o) && env.m <= MORSEL_ROWS && 0.0 <= env.o.fraction
    ensures !env.Selects()
  {
    if env.o.selection {
      var part, full := env.o.fraction * env.m as real, env.o.fraction * MORSEL_ROWS as real;
      SmallerProduct(env.o.fraction, env.m as real, MORSEL_ROWS as real);
      assert full.Floor < 1;
      assert full < 1.0;
      FloorBound(part, 1);
    }
  }

  lemma PartialMorsel(o: Options, preds: map<nat, seq<bool>>)
    requires EverLists(o) && 0.0 <= o.fraction < 1.0
    ensures Partial(Env(preds, MORSEL_ROWS, o))
  {
    FloorBound(o.fraction * MORSEL_ROWS as real, MORSEL_ROWS);
  }

  /** The morsel on which a setting shows its fault. */
  function Fault(o: Options): (t: Clashes)
    ensures t.Sized() && 2 <= t.m <= MORSEL_ROWS
  {
    if o.fraction == 1.0 then EVEN else Apart(MORSEL_ROWS)
  }

  /** Under every setting that ever lists a row, an unsafe expression goes wrong on a morsel with the breaking masks. */
  lemma SettingFails(e: Expr, env: Env)
    requires ReadOnce(e) && NonEmpty(e) && !Safe(e) && EverLists(env.o) && 0.0 <= env.o.fraction <= 1.0
    requires env.m == Fault(env.o).m && Has(env, Break(e, Fault(env.o)))
    ensures Go(e, env, []).mask != Truth(e, env)
  {
    hide Break, Go, Safe, NonEmpty, ReadOnce;
    if env.o.fraction == 1.0 {
      EvenFails(e, env);
    } else {
      PartialMorsel(env.o, env.preds);
      var got := WrongAtRoot(e, env);
    }
  }

  /** For each setting on its own: the evaluator is exact on every morsel, predicate mask and leftover list exactly
      when selection vectors are off, or a full morsel's threshold is below one row, or the expression is safe. */
  lemma SettingExactIff(e: Expr, o: Options)
    requires ReadOnce(e) && NonEmpty(e) && 0.0 <= o.fraction <= 1.0
    ensures (forall env: Env, surv: seq<nat> | env.o == o && env.m <= MORSEL_ROWS :: Go(e, env, surv).mask == Truth(e, env))
       <==> Safe(e) || !EverLists(o)
  {
    if Safe(e) || !EverLists(o) {
      forall env: Env, surv: seq<nat> | env.o == o && env.m <= MORSEL_ROWS ensures Go(e, env, surv).mask == Truth(e, env) {
        if !EverLists(o) { NeverLists(env); }
        SafeExact(e, env, surv);
      }
    } else {
      var env := Env(Break(e, Fault(o)), Fault(o).m, o);
      SettingFails(e, env);
    }
  }
}
