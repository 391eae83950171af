/** The rule engines that the HTTP evaluation workers share: one engine under a serial lock until the
    pool is built, then one engine per worker taken from the pool. */
module EnginePool {
  import opened Sums

  type Engine = nat

  /** The engine that exists from the start. */
  const BASE: Engine := 0

  datatype Config = Config(shards: nat, dedupe: bool) {
    /** How many evaluation workers `run_http` starts. */
    function Workers(): nat {
      if dedupe || shards < 1 then 1 else shards
    }

    /** `eval_shards > 1`: evaluations before the pool exists take the serial lock. */
    predicate Sharded() {
      shards > 1
    }
  }

  /** A worker's place in `http_eval_loop`; `serial` says that it holds the serial lock. */
  datatype Worker =
    | Idle
    | Wanting
    | Checking
    | Ready(serial: bool)
    | Using(engine: Engine, pooled: bool, serial: bool)
    | Initing(serial: bool)
    | Building(serial: bool)
    | Closing(serial: bool)

  datatype Once = NotRun | Running | Ran

  datatype State = State(workers: seq<Worker>, locked: bool, built: bool, free: seq<Engine>, once: Once)

  datatype Step =
    | Pop(i: nat)
    | Lock(i: nat)
    | Check(i: nat)
    | Acquire(i: nat)
    | Release(i: nat)
    | Throw(i: nat)
    | Fail(i: nat)
    | Enter(i: nat)
    | CallOnce(i: nat)
    | Build(i: nat, stateless: bool)
    | BuildFails(i: nat)
    | Finish(i: nat)

  function With(s: State, i: nat, w: Worker): State
    requires i < |s.workers|
  {
    s.(workers := s.workers[i := w])
  }

  /** What `maybe_init_pool` puts into the pool: the created shards, then the first engine. */
  function Pool(shards: nat): (pool: seq<Engine>)
    requires shards > 1
    ensures |pool| == shards
  {
    seq(shards - 1, k requires 0 <= k < shards - 1 => k + 1) + [BASE]
  }

  predicate Enabled(c: Config, s: State, step: Step) {
    && step.i < |s.workers|
    && var w := s.workers[step.i];
       match step
       case Pop(_) => w.Idle?
       case Lock(_) => w.Wanting? && !s.locked
       case Check(_) => w.Checking?
       case Acquire(_) => w.Ready? && (!s.built || s.free != [])
       case Release(_) => w.Using?
       case Throw(_) => w.Using?
       case Fail(_) => w.Ready?
       case Enter(_) => w.Ready?
       case CallOnce(_) => w.Initing? && !s.once.Running?
       case Build(_, _) => w.Building?
       case BuildFails(_) => w.Building?
       case Finish(_) => w.Closing?
  }

  function Apply(c: Config, s: State, step: Step): State
    requires Enabled(c, s, step)
  {
    var i, w := step.i, s.workers[step.i];
    match step
    case Pop(_) => With(s, i, if c.Sharded() then Wanting else Ready(false))
    case Lock(_) => With(s, i, Checking).(locked := true)
    case Check(_) => if s.built then With(s, i, Ready(false)).(locked := false) else With(s, i, Ready(true))
    case Acquire(_) =>
      if !s.built then With(s, i, Using(BASE, false, w.serial))
      else With(s, i, Using(s.free[|s.free| - 1], true, w.serial)).(free := s.free[..|s.free| - 1])
    case Release(_) => With(s, i, Ready(w.serial)).(free := if w.pooled then s.free + [w.engine] else s.free)
    case Throw(_) => With(s, i, Closing(w.serial)).(free := if w.pooled then s.free + [w.engine] else s.free)
    case Fail(_) => With(s, i, Closing(w.serial))
    case Enter(_) => With(s, i, if c.Sharded() then Initing(w.serial) else Closing(w.serial))
    case CallOnce(_) => if s.once.Ran? then With(s, i, Closing(w.serial)) else With(s, i, Building(w.serial)).(once := Running)
    case Build(_, stateless) =>
      if stateless && !c.dedupe && c.Sharded() then With(s, i, Closing(w.serial)).(once := Ran, built := true, free := Pool(c.shards))
      else With(s, i, Closing(w.serial)).(once := Ran)
    case BuildFails(_) => With(s, i, Closing(w.serial)).(once := NotRun)
    case Finish(_) => With(s, i, Idle).(locked := if w.serial then false else s.locked)
  }

  /** A failed build leaves the next caller of the once-block to build; a finished one does not. */
  lemma BuildsOnce(c: Config, s: State, step: Step, j: nat)
    requires Enabled(c, s, step) && step.i < |s.workers| && j < |s.workers| && j != step.i && s.workers[j].Initing?
    requires step.Build? || step.BuildFails?
    ensures var s' := Apply(c, s, step);
            && Enabled(c, s', CallOnce(j))
            && (step.BuildFails? ==> Apply(c, s', CallOnce(j)).workers[j].Building? && s'.built == s.built)
            && (step.Build? ==> Apply(c, s', CallOnce(j)).workers[j].Closing?)
            && (step.Build? && step.stateless && !c.dedupe && c.shards >= 2 ==> s'.built && |s'.free| == c.shards)
            && (step.Build? && !(step.stateless && !c.dedupe && c.shards >= 2) ==> s'.built == s.built && s'.free == s.free)
  {
  }

  /** A worker behind its request builds the pool when nobody has tried before. */
  lemma PoolReached(c: Config, s: State, i: nat)
    requires i < |s.workers| && s.workers[i].Ready? && s.once.NotRun? && c.shards >= 2 && !c.dedupe
    ensures Enabled(c, s, Enter(i))
    ensures var entered := Apply(c, s, Enter(i));
            Enabled(c, entered, CallOnce(i))
            && var called := Apply(c, entered, CallOnce(i));
               Enabled(c, called, Build(i, true))
               && var after := Apply(c, called, Build(i, true)); after.built && |after.free| == c.shards && after.workers[i].Closing?
  {
  }

  ghost predicate Init(c: Config, s: State) {
    && |s.workers| == c.Workers() && (forall i | 0 <= i < |s.workers| :: s.workers[i].Idle?)
    && !s.locked && !s.built && s.free == [] && s.once.NotRun?
  }

  ghost predicate Next(c: Config, s: State, s': State) {
    exists step :: Enabled(c, s, step) && s' == Apply(c, s, step)
  }

  // ---- The serial lock and the pre-build phase ---------------------------------------------------------

  /** Whether a worker holds the serial lock. */
  predicate Serial(w: Worker) {
    match w
    case Idle => false
    case Wanting => false
    case Checking => true
    case Using(_, _, serial) => serial
    case _ => w.serial
  }

  function SerialLoads(ws: seq<Worker>): (loads: seq<nat>)
    ensures |loads| == |ws| && forall i | 0 <= i < |ws| :: loads[i] == if Serial(ws[i]) then 1 else 0
  {
    seq(|ws|, i requires 0 <= i < |ws| => if Serial(ws[i]) then 1 else 0)
  }

  function BuildLoads(ws: seq<Worker>): (loads: seq<nat>)
    ensures |loads| == |ws| && forall i | 0 <= i < |ws| :: loads[i] == if ws[i].Building? then 1 else 0
  {
    seq(|ws|, i requires 0 <= i < |ws| => if ws[i].Building? then 1 else 0)
  }

  /** A worker past the lock without holding it. */
  predicate Unlocked(w: Worker) {
    !w.Idle? && !w.Wanting? && !Serial(w)
  }

  /** The lock has its one holder, the builder is alone, and with sharding on nobody evaluates outside
      the lock before the pool exists. */
  ghost predicate Guarded(c: Config, s: State) {
    && |s.workers| == c.Workers()
    && Sum(SerialLoads(s.workers)) == (if s.locked then 1 else 0)
    && Sum(BuildLoads(s.workers)) == (if s.once.Running? then 1 else 0)
    && (s.built ==> s.once.Ran?)
    && (c.Sharded() ==> forall i | 0 <= i < |s.workers| && Unlocked(s.workers[i]) :: s.built)
    && (!c.Sharded() ==> !s.built && forall i | 0 <= i < |s.workers| ::
                           !s.workers[i].Wanting? && !s.workers[i].Initing? && !s.workers[i].Building? && !Serial(s.workers[i]))
    && (forall i | 0 <= i < |s.workers| && s.workers[i].Using? && !s.workers[i].pooled ::
          !s.built && s.workers[i].engine == BASE)
  }

  lemma GuardMoves(ws: seq<Worker>, i: nat, w: Worker)
    requires i < |ws|
    ensures Sum(SerialLoads(ws[i := w])) + (if Serial(ws[i]) then 1 else 0) == Sum(SerialLoads(ws)) + if Serial(w) then 1 else 0
    ensures Sum(BuildLoads(ws[i := w])) + (if ws[i].Building? then 1 else 0) == Sum(BuildLoads(ws)) + if w.Building? then 1 else 0
  {
    SumUpdate(SerialLoads(ws), i, if Serial(w) then 1 else 0);
    assert SerialLoads(ws[i := w]) == SerialLoads(ws)[i := if Serial(w) then 1 else 0];
    SumUpdate(BuildLoads(ws), i, if w.Building? then 1 else 0);
    assert BuildLoads(ws[i := w]) == BuildLoads(ws)[i := if w.Building? then 1 else 0];
  }

  /** Two holders of the lock are one worker. */
  lemma OneSerial(s: State, i: nat, j: nat)
    requires Sum(SerialLoads(s.workers)) <= 1
    requires i < |s.workers| && j < |s.workers| && Serial(s.workers[i]) && Serial(s.workers[j])
    ensures i == j
  {
    if i != j { SumHasBoth(SerialLoads(s.workers), i, j); }
  }

  lemma LockIsHeld(s: State, i: nat)
    requires Sum(SerialLoads(s.workers)) == (if s.locked then 1 else 0)
    requires i < |s.workers| && Serial(s.workers[i])
    ensures s.locked
  {
    SumHas(SerialLoads(s.workers), i);
  }

  lemma BuilderRuns(s: State, i: nat)
    requires Sum(BuildLoads(s.workers)) == (if s.once.Running? then 1 else 0)
    requires i < |s.workers| && s.workers[i].Building?
    ensures s.once.Running?
  {
    SumHas(BuildLoads(s.workers), i);
  }

  /** When the pool appears, nobody is inside the first engine: its user would hold the builder's lock. */
  lemma BuilderAlone(c: Config, s: State, i: nat, j: nat)
    requires Guarded(c, s) && i < |s.workers| && j < |s.workers| && s.workers[i].Building?
    ensures !s.workers[j].Using?
  {
    BuilderRuns(s, i);
    if s.workers[j].Using? {
      assert Serial(s.workers[i]) && Serial(s.workers[j]);
      OneSerial(s, i, j);
    }
  }

  lemma GuardedCounts(c: Config, s: State, step: Step)
    requires Enabled(c, s, step) && Guarded(c, s)
    ensures var s' := Apply(c, s, step);
            && |s'.workers| == c.Workers()
            && Sum(SerialLoads(s'.workers)) == (if s'.locked then 1 else 0)
            && Sum(BuildLoads(s'.workers)) == (if s'.once.Running? then 1 else 0)
            && (s'.built ==> s'.once.Ran?)
  {
    var i := step.i;
    var s' := Apply(c, s, step);
    GuardMoves(s.workers, i, s'.workers[i]);
    assert s'.workers == s.workers[i := s'.workers[i]];
    if Serial(s.workers[i]) { LockIsHeld(s, i); }
    if s.workers[i].Building? { BuilderRuns(s, i); }
  }

  /** The worker that moves stays behind the lock or finds the pool built. */
  lemma MoverGuarded(c: Config, s: State, step: Step)
    requires Enabled(c, s, step) && Guarded(c, s)
    ensures var w := Apply(c, s, step).workers[step.i];
            && (c.Sharded() && Unlocked(w) ==> Apply(c, s, step).built)
            && (!c.Sharded() ==> !w.Wanting? && !w.Initing? && !w.Building? && !Serial(w))
            && (w.Using? && !w.pooled ==> !Apply(c, s, step).built && w.engine == BASE)
  {
    var w := s.workers[step.i];
    assert c.Sharded() && Unlocked(w) ==> s.built;
  }

  lemma OthersStay(c: Config, s: State, step: Step, j: nat)
    requires Enabled(c, s, step) && j < |s.workers| && j != step.i
    ensures |Apply(c, s, step).workers| == |s.workers| && Apply(c, s, step).workers[j] == s.workers[j]
    ensures Apply(c, s, step).built == (s.built || (step.Build? && step.stateless && !c.dedupe && c.Sharded()))
  {
  }

  lemma GuardedStep(c: Config, s: State, step: Step)
    requires Enabled(c, s, step) && Guarded(c, s)
    ensures Guarded(c, Apply(c, s, step))
  {
    var s' := Apply(c, s, step);
    GuardedCounts(c, s, step);
    MoverGuarded(c, s, step);
    BuiltBy(c, s, step);
    hide Apply, SerialLoads, BuildLoads, Sum, Unlocked, Serial;
    forall j | 0 <= j < |s'.workers|
      ensures c.Sharded() && Unlocked(s'.workers[j]) ==> s'.built
      ensures !c.Sharded() ==> !s'.workers[j].Wanting? && !s'.workers[j].Initing? && !s'.workers[j].Building? && !Serial(s'.workers[j])
      ensures s'.workers[j].Using? && !s'.workers[j].pooled ==> !s'.built && s'.workers[j].engine == BASE
    {
      if j != step.i {
        OthersStay(c, s, step, j);
        if step.Build? { BuilderAlone(c, s, step.i, j); }
      }
    }
  }

  lemma BuiltBy(c: Config, s: State, step: Step)
    requires Enabled(c, s, step) && Guarded(c, s)
    ensures Apply(c, s, step).built ==> s.built || (step.Build? && c.Sharded())
  {
  }

  // ---- Engines ---------------------------------------------------------------------------------------------

  function FreeLoads(free: seq<Engine>, e: Engine): (loads: seq<nat>)
    ensures |loads| == |free| && forall k | 0 <= k < |free| :: loads[k] == if free[k] == e then 1 else 0
  {
    seq(|free|, k requires 0 <= k < |free| => if free[k] == e then 1 else 0)
  }

  function UseLoads(ws: seq<Worker>, e: Engine): (loads: seq<nat>)
    ensures |loads| == |ws| && forall i | 0 <= i < |ws| :: loads[i] == if ws[i].Using? && ws[i].pooled && ws[i].engine == e then 1 else 0
  {
    seq(|ws|, i requires 0 <= i < |ws| => if ws[i].Using? && ws[i].pooled && ws[i].engine == e then 1 else 0)
  }

  function HeldLoads(ws: seq<Worker>): (loads: seq<nat>)
    ensures |loads| == |ws| && forall i | 0 <= i < |ws| :: loads[i] == if ws[i].Using? && ws[i].pooled then 1 else 0
  {
    seq(|ws|, i requires 0 <= i < |ws| => if ws[i].Using? && ws[i].pooled then 1 else 0)
  }

  /** How often engine e is listed free or held by a worker. */
  function Listings(s: State, e: Engine): nat {
    Sum(FreeLoads(s.free, e)) + Sum(UseLoads(s.workers, e))
  }

  /** How many engines are free or held. */
  function Known(s: State): nat {
    |s.free| + Sum(HeldLoads(s.workers))
  }

  /** Once built, every pool engine is in exactly one place and their number is constant; before, none
      is anywhere. */
  ghost predicate Conserved(c: Config, s: State) {
    && (forall e: Engine :: Listings(s, e) == if s.built && e < c.shards then 1 else 0)
    && Known(s) == (if s.built then c.shards else 0)
  }

  lemma UseMoves(ws: seq<Worker>, i: nat, w: Worker, e: Engine)
    requires i < |ws|
    ensures Sum(UseLoads(ws[i := w], e)) + UseLoads(ws, e)[i]
            == Sum(UseLoads(ws, e)) + if w.Using? && w.pooled && w.engine == e then 1 else 0
  {
    var load := if w.Using? && w.pooled && w.engine == e then 1 else 0;
    SumUpdate(UseLoads(ws, e), i, load);
    assert UseLoads(ws[i := w], e) == UseLoads(ws, e)[i := load];
  }

  lemma HeldMoves(ws: seq<Worker>, i: nat, w: Worker)
    requires i < |ws|
    ensures Sum(HeldLoads(ws[i := w])) + HeldLoads(ws)[i] == Sum(HeldLoads(ws)) + if w.Using? && w.pooled then 1 else 0
  {
    var load := if w.Using? && w.pooled then 1 else 0;
    SumUpdate(HeldLoads(ws), i, load);
    assert HeldLoads(ws[i := w]) == HeldLoads(ws)[i := load];
  }

  lemma FreeBack(free: seq<Engine>, x: Engine, e: Engine)
    ensures Sum(FreeLoads(free + [x], e)) == Sum(FreeLoads(free, e)) + if x == e then 1 else 0
  {
    SumPush(FreeLoads(free, e), if x == e then 1 else 0);
    assert FreeLoads(free + [x], e) == FreeLoads(free, e) + [if x == e then 1 else 0];
  }

  lemma {:induction false} ShardsOnce(n: nat, e: Engine)
    ensures Sum(FreeLoads(seq(n, k requires 0 <= k < n => k + 1), e)) == if 0 < e <= n then 1 else 0
  {
    if n == 0 {
      assert seq(n, k requires 0 <= k < n => k + 1) == [];
    } else {
      ShardsOnce(n - 1, e);
      var less := seq(n - 1, k requires 0 <= k < n - 1 => k + 1);
      FreeBack(less, n, e);
      assert seq(n, k requires 0 <= k < n => k + 1) == less + [n];
    }
  }

  lemma PoolOnce(shards: nat, e: Engine)
    requires shards > 1
    ensures Sum(FreeLoads(Pool(shards), e)) == if e < shards then 1 else 0
  {
    ShardsOnce(shards - 1, e);
    FreeBack(seq(shards - 1, k requires 0 <= k < shards - 1 => k + 1), BASE, e);
  }

  lemma ListingsStep(c: Config, s: State, step: Step, e: Engine)
    requires Enabled(c, s, step) && Guarded(c, s)
    requires s.built || s.free == []
    ensures var s' := Apply(c, s, step);
            Listings(s', e) == if s'.built && !s.built then Listings(s, e) + (if e < c.shards then 1 else 0) else Listings(s, e)
  {
    hide Sum, UseLoads, FreeLoads;
    var i, s' := step.i, Apply(c, s, step);
    UseMoves(s.workers, i, s'.workers[i], e);
    assert s'.workers == s.workers[i := s'.workers[i]];
    match step
    case Acquire(_) =>
      if s.built {
        var last := |s.free| - 1;
        FreeBack(s.free[..last], s.free[last], e);
        assert s.free == s.free[..last] + [s.free[last]];
      }
    case Release(_) => FreeBack(s.free, s.workers[i].engine, e);
    case Throw(_) => FreeBack(s.free, s.workers[i].engine, e);
    case Build(_, _) =>
      BuilderRuns(s, i);
      if s'.built {
        PoolOnce(c.shards, e);
        NoneFree(e);
      }
    case _ =>
  }

  lemma NoneFree(e: Engine)
    ensures Sum(FreeLoads([], e)) == 0
  {
  }

  lemma KnownStep(c: Config, s: State, step: Step)
    requires Enabled(c, s, step) && Guarded(c, s)
    requires s.built || s.free == []
    ensures var s' := Apply(c, s, step);
            Known(s') == if s'.built && !s.built then Known(s) + c.shards else Known(s)
  {
    var i, s' := step.i, Apply(c, s, step);
    HeldMoves(s.workers, i, s'.workers[i]);
    assert s'.workers == s.workers[i := s'.workers[i]];
    if step.Build? { BuilderRuns(s, i); }
  }

  lemma ConservedStep(c: Config, s: State, step: Step)
    requires Enabled(c, s, step) && Guarded(c, s) && Conserved(c, s)
    ensures Conserved(c, Apply(c, s, step))
  {
    var s' := Apply(c, s, step);
    KnownStep(c, s, step);
    assert s.built ==> s'.built;
    hide Apply, Enabled, Guarded, Listings, Known;
    forall e: Engine ensures Listings(s', e) == if s'.built && e < c.shards then 1 else 0 {
      ListingsStep(c, s, step, e);
    }
  }

  // ---- All runs -----------------------------------------------------------------------------------------------

  ghost predicate Run(c: Config, run: seq<State>) {
    && run != [] && Init(c, run[0])
    && forall k | 0 <= k < |run| - 1 :: Next(c, run[k], run[k + 1])
  }

  lemma {:induction false} RunKeeps(c: Config, run: seq<State>, k: nat)
    requires Run(c, run) && k < |run|
    ensures Guarded(c, run[k]) && Conserved(c, run[k])
  {
    if k == 0 {
      InitKeeps(c, run[0]);
    } else {
      hide Apply, Enabled, Guarded, Conserved, Init;
      RunKeeps(c, run, k - 1);
      assert Next(c, run[k - 1], run[k - 1 + 1]);
      var step :| Enabled(c, run[k - 1], step) && run[k] == Apply(c, run[k - 1], step);
      GuardedStep(c, run[k - 1], step);
      ConservedStep(c, run[k - 1], step);
    }
  }

  lemma InitKeeps(c: Config, s: State)
    requires Init(c, s)
    ensures Guarded(c, s) && Conserved(c, s)
  {
    SumNone(SerialLoads(s.workers));
    SumNone(BuildLoads(s.workers));
    SumNone(HeldLoads(s.workers));
    forall e: Engine ensures Listings(s, e) == 0 {
      SumNone(UseLoads(s.workers, e));
    }
  }

  /** One worker if requests are deduplicated, else one for each shard and one at the least. Without a second shard, and
      with deduplication, the pool is never built. */
  lemma {:induction false} RunWorkers(c: Config, run: seq<State>, k: nat)
    requires Run(c, run) && k < |run|
    ensures |run[k].workers| == if c.dedupe || c.shards == 0 then 1 else c.shards
    ensures c.dedupe || c.shards <= 1 ==> !run[k].built && run[k].free == []
  {
    hide Apply, Enabled, Guarded, Conserved;
    RunKeeps(c, run, k);
    StateWorkers(c, run[k]);
    if k == 0 {
      InitUnbuilt(c, run[0]);
    } else {
      RunWorkers(c, run, k - 1);
      RunKeeps(c, run, k - 1);
      assert Next(c, run[k - 1], run[k - 1 + 1]);
      var step :| Enabled(c, run[k - 1], step) && run[k] == Apply(c, run[k - 1], step);
      StepWorkers(c, run[k - 1], step);
    }
  }

  lemma InitUnbuilt(c: Config, s: State)
    requires Init(c, s)
    ensures !s.built
  {
  }

  lemma StateWorkers(c: Config, s: State)
    requires Guarded(c, s) && Conserved(c, s)
    ensures |s.workers| == if c.dedupe || c.shards == 0 then 1 else c.shards
    ensures !s.built ==> s.free == []
  {
  }

  lemma StepWorkers(c: Config, s: State, step: Step)
    requires Enabled(c, s, step) && Guarded(c, s)
    ensures (c.dedupe || c.shards <= 1) && !s.built ==> !Apply(c, s, step).built
  {
  }

  /** In every interleaving no engine is in two workers' hands, and none that is in use is listed free. */
  lemma EngineExclusive(c: Config, run: seq<State>, k: nat, i: nat, j: nat)
    requires Run(c, run) && k < |run|
    requires var ws := run[k].workers; i < |ws| && ws[i].Using? && j < |ws| && ws[j].Using? && i != j
    ensures run[k].workers[i].engine != run[k].workers[j].engine
    ensures run[k].workers[i].engine !in run[k].free
  {
    RunKeeps(c, run, k);
    var s := run[k];
    var e := s.workers[i].engine;
    assert Listings(s, e) <= 1;
    if s.workers[i].pooled {
      SumHas(UseLoads(s.workers, e), i);
      if e in s.free {
        var f :| 0 <= f < |s.free| && s.free[f] == e;
        SumHas(FreeLoads(s.free, e), f);
      }
      if s.workers[j].engine == e { PooledTogether(c, s, i, j); }
    } else {
      UnpooledAlone(c, s, i, j);
    }
  }

  lemma PooledTogether(c: Config, s: State, i: nat, j: nat)
    requires Guarded(c, s) && Conserved(c, s) && i < |s.workers| && j < |s.workers| && i != j
    requires s.workers[i].Using? && s.workers[i].pooled && s.workers[j].Using?
    ensures s.workers[i].engine != s.workers[j].engine
  {
    var e := s.workers[i].engine;
    assert Listings(s, e) <= 1;
    SumHas(UseLoads(s.workers, e), i);
    if s.workers[j].pooled && s.workers[j].engine == e { SumHasBoth(UseLoads(s.workers, e), i, j); }
  }

  /** Whoever uses the first engine outside the pool is the only user of any engine. */
  lemma UnpooledAlone(c: Config, s: State, i: nat, j: nat)
    requires Guarded(c, s) && Conserved(c, s) && i < |s.workers| && j < |s.workers| && i != j
    requires s.workers[i].Using? && !s.workers[i].pooled
    ensures !s.workers[j].Using? && s.free == []
  {
    if s.workers[j].Using? {
      assert c.Sharded();
      assert Serial(s.workers[i]) && Serial(s.workers[j]);
      OneSerial(s, i, j);
    }
  }

  /** With one worker per engine, a worker that asks the pool for an engine never waits for one. */
  lemma AcquireNeverWaits(c: Config, run: seq<State>, k: nat, i: nat)
    requires Run(c, run) && k < |run| && i < |run[k].workers| && run[k].workers[i].Ready?
    ensures Enabled(c, run[k], Acquire(i))
  {
    RunKeeps(c, run, k);
    var s := run[k];
    if s.built {
      SomeIdle(HeldLoads(s.workers), i);
      assert c.shards > 0 && |s.workers| <= c.shards;
    }
  }

  lemma {:induction false} SomeIdle(loads: seq<nat>, i: nat)
    requires i < |loads| && loads[i] == 0 && forall k | 0 <= k < |loads| :: loads[k] <= 1
    ensures Sum(loads) < |loads|
  {
    if i == 0 { AtMost(loads[1..]); } else { SomeIdle(loads[1..], i - 1); }
  }

  lemma {:induction false} AtMost(loads: seq<nat>)
    requires forall k | 0 <= k < |loads| :: loads[k] <= 1
    ensures Sum(loads) <= |loads|
  {
    if loads != [] { AtMost(loads[1..]); }
  }

  /** Nobody is ever kept waiting inside `call_once` by another worker's build. */
  lemma CallOnceNeverWaits(c: Config, run: seq<State>, k: nat, i: nat)
    requires Run(c, run) && k < |run| && i < |run[k].workers| && run[k].workers[i].Initing?
    ensures Enabled(c, run[k], CallOnce(i))
  {
    RunKeeps(c, run, k);
    var s := run[k];
    if s.once.Running? {
      SomeBuilder(s.workers);
      var j :| 0 <= j < |s.workers| && s.workers[j].Building?;
      if c.Sharded() { OneSerial(s, i, j); }
    }
  }

  lemma SomeBuilder(ws: seq<Worker>)
    requires Sum(BuildLoads(ws)) > 0
    ensures exists j :: 0 <= j < |ws| && ws[j].Building?
  {
    if forall j | 0 <= j < |ws| :: !ws[j].Building? { SumNone(BuildLoads(ws)); }
  }
}
