/** The evaluator's algorithm on an expression tree: masks as row sequences and the survivor list
    as the one buffer that the whole recursion shares.  `Go` is what `ExprEvaluator::eval` computes,
    `Truth` is plain Boolean evaluation, and the lemmas say when the two agree. */
module EvalTree {
  import opened ByteMask
  import opened Casts
  import opened MaskKernels

  datatype Expr = Leaf(p: nat) | AllOf(cs: seq<Expr>) | AnyOf(cs: seq<Expr>) | NotOf(c: Expr)

  /** `enable_selection_vectors` and `selection_vector_threshold`. */
  datatype Options = Options(selection: bool, fraction: real)

  /** Predicate masks by pool index, the morsel's row count, and the options. */
  datatype Env = Env(preds: map<nat, seq<bool>>, m: nat, o: Options) {
    function Get(p: nat): (rows: seq<bool>)
      ensures |rows| == m
    {
      if p in preds && |preds[p]| == m then preds[p] else NoRows(m)
    }

    /** `static_cast<int>(selection_vector_threshold * m)`. */
    function Threshold(): int {
      Truncate(o.fraction * m as real)
    }

    /** Whether a list with a row in it can ever be made. */
    predicate Selects() {
      o.selection && Threshold() > 0
    }

    /** Whether an AND with `width` children goes through the survivor list. */
    predicate Sparse(first: seq<bool>, width: nat) {
      o.selection && width > 1 && Count(first) <= Threshold()
    }
  }

  datatype Out = Out(mask: seq<bool>, surv: seq<nat>)

  /** One pass of the survivor filter: keep the rows whose bit is set. */
  function Filter(surv: seq<nat>, mask: seq<bool>): seq<nat> {
    if surv == [] then []
    else
      var last := |surv| - 1;
      var kept := Filter(surv[..last], mask);
      if surv[last] < |mask| && mask[surv[last]] then kept + [surv[last]] else kept
  }

  /** The mask with exactly the listed rows set. */
  function FromIndices(surv: seq<nat>, m: nat): (rows: seq<bool>)
    ensures |rows| == m
  {
    seq(m, i requires 0 <= i < m => i in surv)
  }

  function Go(e: Expr, env: Env, surv: seq<nat>): (r: Out)
    ensures |r.mask| == env.m
    decreases e, 1
  {
    match e
    case Leaf(p) => Out(env.Get(p), surv)
    case NotOf(c) =>
      var r := Go(c, env, surv);
      Out(NotRows(r.mask), r.surv)
    case AnyOf(cs) =>
      if cs == [] then Out(NoRows(env.m), surv)
      else
        var first := Go(cs[0], env, surv);
        OrRest(cs[1..], env, first.mask, first.surv)
    case AllOf(cs) =>
      if cs == [] then Out(NoRows(env.m), surv)
      else
        var first := Go(cs[0], env, surv);
        if env.Sparse(first.mask, |cs|) then
          if Count(first.mask) == 0 then Out(NoRows(env.m), first.surv)
          else
            var s := SparseRest(cs[1..], env, Indices(first.mask));
            Out(FromIndices(s, env.m), s)
        else AndRest(cs[1..], env, first.mask, first.surv)
  }

  function OrRest(cs: seq<Expr>, env: Env, acc: seq<bool>, surv: seq<nat>): (r: Out)
    requires |acc| == env.m
    ensures |r.mask| == env.m
    decreases cs, 0
  {
    if cs == [] then Out(acc, surv)
    else
      var r := Go(cs[0], env, surv);
      OrRest(cs[1..], env, OrRows(acc, r.mask), r.surv)
  }

  function AndRest(cs: seq<Expr>, env: Env, acc: seq<bool>, surv: seq<nat>): (r: Out)
    requires |acc| == env.m
    ensures |r.mask| == env.m
    decreases cs, 0
  {
    if cs == [] then Out(acc, surv)
    else
      var r := Go(cs[0], env, surv);
      AndRest(cs[1..], env, AndRows(acc, r.mask), r.surv)
  }

  /** The survivor loop.  Evaluating a child may overwrite the shared list; the filter then runs on
      whatever the child left in it. */
  function SparseRest(cs: seq<Expr>, env: Env, surv: seq<nat>): seq<nat>
    decreases cs, 0
  {
    if cs == [] || surv == [] then surv
    else
      var r := Go(cs[0], env, surv);
      SparseRest(cs[1..], env, Filter(r.surv, r.mask))
  }

  /** Plain Boolean evaluation of one row.  An AND or OR without children is false. */
  predicate TruthAt(e: Expr, env: Env, i: nat)
    requires i < env.m
  {
    match e
    case Leaf(p) => env.Get(p)[i]
    case NotOf(c) => !TruthAt(c, env, i)
    case AnyOf(cs) => exists k | 0 <= k < |cs| :: TruthAt(cs[k], env, i)
    case AllOf(cs) => cs != [] && forall k | 0 <= k < |cs| :: TruthAt(cs[k], env, i)
  }

  function Truth(e: Expr, env: Env): (rows: seq<bool>)
    ensures |rows| == env.m
  {
    seq(env.m, i requires 0 <= i < env.m => TruthAt(e, env, i))
  }

  /** No AND of two or more children anywhere in e, so evaluating e never touches the survivors. */
  predicate NoSparse(e: Expr) {
    match e
    case Leaf(_) => true
    case NotOf(c) => NoSparse(c)
    case AnyOf(cs) => forall k | 0 <= k < |cs| :: NoSparse(cs[k])
    case AllOf(cs) => |cs| <= 1 && forall k | 0 <= k < |cs| :: NoSparse(cs[k])
  }

  /** No AND of two or more children inside a child of an AND other than the first. */
  predicate Safe(e: Expr) {
    match e
    case Leaf(_) => true
    case NotOf(c) => Safe(c)
    case AnyOf(cs) => forall k | 0 <= k < |cs| :: Safe(cs[k])
    case AllOf(cs) =>
      && (forall k | 0 <= k < |cs| :: Safe(cs[k]))
      && (forall k | 1 <= k < |cs| :: NoSparse(cs[k]))
  }

  // ---- Survivor lists stand for row sets ---------------------------------------------------------

  lemma {:induction false} FilterBelow(acc: seq<bool>, mask: seq<bool>, k: nat)
    requires |acc| == |mask|
    ensures Filter(IndicesBelow(acc, k), mask) == IndicesBelow(AndRows(acc, mask), k)
  {
    if k != 0 {
      FilterBelow(acc, mask, k - 1);
      var list := IndicesBelow(acc, k);
      if k - 1 < |acc| && acc[k - 1] {
        assert list[..|list| - 1] == IndicesBelow(acc, k - 1);
      }
    }
  }

  /** Filtering the rows of `acc` by a mask gives the rows of the conjunction. */
  lemma FilterIndices(acc: seq<bool>, mask: seq<bool>)
    requires |acc| == |mask|
    ensures Filter(Indices(acc), mask) == Indices(AndRows(acc, mask))
  {
    FilterBelow(acc, mask, |acc|);
  }

  lemma FromIndicesExact(rows: seq<bool>)
    ensures FromIndices(Indices(rows), |rows|) == rows
  {
    IndicesExact(rows);
  }

  lemma NoIndices(rows: seq<bool>)
    ensures Indices(rows) == [] <==> forall i | 0 <= i < |rows| :: !rows[i]
    ensures Indices(rows) == [] ==> rows == NoRows(|rows|)
  {
    IndicesExact(rows);
    if i :| 0 <= i < |rows| && rows[i] {
      assert i in Indices(rows);
    }
    if Indices(rows) != [] {
      assert Indices(rows)[0] in Indices(rows);
    }
  }

  // ---- Agreement ---------------------------------------------------------------------------------

  /** Safe expressions evaluate to their truth under every setting, whatever the survivor list held. */
  lemma {:induction false} SafeExact(e: Expr, env: Env, surv: seq<nat>)
    requires Safe(e) || !env.Selects()
    ensures Go(e, env, surv).mask == Truth(e, env)
    ensures NoSparse(e) || !env.Selects() ==> Go(e, env, surv).surv == surv
    decreases e, 1
  {
    match e
    case Leaf(p) =>
    case NotOf(c) => SafeExact(c, env, surv);
    case AnyOf(cs) =>
      if cs != [] {
        SafeExact(cs[0], env, surv);
        var first := Go(cs[0], env, surv);
        OrRestExact(cs[1..], env, first.mask, first.surv);
        forall i | 0 <= i < env.m ensures Go(e, env, surv).mask[i] == TruthAt(e, env, i) {
          SplitFirst(cs, env, i);
        }
      }
    case AllOf(cs) =>
      if cs != [] {
        SafeExact(cs[0], env, surv);
        var first := Go(cs[0], env, surv);
        forall i | 0 <= i < env.m ensures TruthAt(e, env, i) == (first.mask[i] && AllTruth(cs[1..], env, i)) {
          SplitFirst(cs, env, i);
        }
        if env.Sparse(first.mask, |cs|) {
          NoIndices(first.mask);
          if Count(first.mask) != 0 {
            SparseRestExact(cs[1..], env, first.mask);
          }
        } else {
          AndRestExact(cs[1..], env, first.mask, first.surv);
        }
      }
  }

  predicate AllTruth(cs: seq<Expr>, env: Env, i: nat)
    requires i < env.m
  {
    forall k | 0 <= k < |cs| :: TruthAt(cs[k], env, i)
  }

  predicate AnyTruth(cs: seq<Expr>, env: Env, i: nat)
    requires i < env.m
  {
    exists k | 0 <= k < |cs| :: TruthAt(cs[k], env, i)
  }

  lemma SplitFirst(cs: seq<Expr>, env: Env, i: nat)
    requires cs != [] && i < env.m
    ensures AllTruth(cs, env, i) == (TruthAt(cs[0], env, i) && AllTruth(cs[1..], env, i))
    ensures AnyTruth(cs, env, i) == (TruthAt(cs[0], env, i) || AnyTruth(cs[1..], env, i))
  {
    var rest := cs[1..];
    assert forall k | 1 <= k < |cs| :: cs[k] == rest[k - 1];
    if AnyTruth(rest, env, i) {
      var k :| 0 <= k < |rest| && TruthAt(rest[k], env, i);
      assert TruthAt(cs[k + 1], env, i);
    }
    if AllTruth(cs, env, i) {
      forall k | 0 <= k < |rest| ensures TruthAt(rest[k], env, i) { assert TruthAt(cs[k + 1], env, i); }
    }
  }

  lemma {:induction false} OrRestExact(cs: seq<Expr>, env: Env, acc: seq<bool>, surv: seq<nat>)
    requires |acc| == env.m
    requires !env.Selects() || forall k | 0 <= k < |cs| :: Safe(cs[k])
    ensures forall i: nat | i < env.m :: OrRest(cs, env, acc, surv).mask[i] == (acc[i] || AnyTruth(cs, env, i))
    ensures !env.Selects() || (forall k | 0 <= k < |cs| :: NoSparse(cs[k])) ==> OrRest(cs, env, acc, surv).surv == surv
    decreases cs, 0
  {
    if cs != [] {
      SafeExact(cs[0], env, surv);
      var r := Go(cs[0], env, surv);
      OrRestExact(cs[1..], env, OrRows(acc, r.mask), r.surv);
      forall i: nat | i < env.m { SplitFirst(cs, env, i); }
    }
  }

  lemma {:induction false} AndRestExact(cs: seq<Expr>, env: Env, acc: seq<bool>, surv: seq<nat>)
    requires |acc| == env.m
    requires !env.Selects() || forall k | 0 <= k < |cs| :: Safe(cs[k])
    ensures forall i: nat | i < env.m :: AndRest(cs, env, acc, surv).mask[i] == (acc[i] && AllTruth(cs, env, i))
    ensures !env.Selects() || (forall k | 0 <= k < |cs| :: NoSparse(cs[k])) ==> AndRest(cs, env, acc, surv).surv == surv
    decreases cs, 0
  {
    if cs != [] {
      SafeExact(cs[0], env, surv);
      var r := Go(cs[0], env, surv);
      AndRestExact(cs[1..], env, AndRows(acc, r.mask), r.surv);
      forall i: nat | i < env.m { SplitFirst(cs, env, i); }
    }
  }

  /** The survivor loop over children that leave the list alone computes the conjunction. */
  lemma {:induction false} SparseRestExact(cs: seq<Expr>, env: Env, acc: seq<bool>)
    requires |acc| == env.m
    requires forall k | 0 <= k < |cs| :: Safe(cs[k]) && NoSparse(cs[k])
    ensures var s := SparseRest(cs, env, Indices(acc));
            forall i: nat | i < env.m :: FromIndices(s, env.m)[i] == (acc[i] && AllTruth(cs, env, i))
    decreases cs, 0
  {
    FromIndicesExact(acc);
    NoIndices(acc);
    if cs != [] && Indices(acc) != [] {
      SafeExact(cs[0], env, Indices(acc));
      var r := Go(cs[0], env, Indices(acc));
      FilterIndices(acc, r.mask);
      SparseRestExact(cs[1..], env, AndRows(acc, r.mask));
      forall i: nat | i < env.m { SplitFirst(cs, env, i); }
    }
  }
}
