/** The agent's HTTP pipeline: evaluation workers, sink workers and the two queues between them, as the
    steps they take in any order. */
module HttpPipeline {
  import opened BoundedQueue
  import opened Optional
  import opened Sums

  type Task = nat

  /** `durable`: a request is answered by the sink; otherwise right after the hand-over. */
  datatype Config = Config(durable: bool, outputDisabled: bool)

  datatype SinkTask = SinkTask(task: Task, results: nat)

  /** Where an evaluation worker stands in `http_eval_loop`. */
  datatype EvalWorker =
    | Free
    | Evaluating(task: Task)
    | Evaluated(task: Task, results: nat)
    | Handed(task: Task)
    | EvalGone

  /** Where a sink worker stands in `http_sink_loop`. */
  datatype SinkWorker = Waiting | Writing(task: Task, left: nat) | SinkGone

  datatype State = State(
    evalQueue: View<Task>,
    sinkQueue: View<SinkTask>,
    evalWorkers: seq<EvalWorker>,
    sinkWorkers: seq<SinkWorker>,
    accepted: set<Task>,
    outcomes: map<Task, nat>,
    lostRaces: nat,
    handed: set<Task>,
    needed: map<Task, nat>,
    written: map<Task, nat>)

  const OK := 200
  const FAILED := 500
  const UNAVAILABLE := 503

  datatype Step =
    | Accept(t: Task)
    | EvalPop(i: nat)
    | EvalExit(i: nat)
    | EvalFail(i: nat)
    | EvalDone(i: nat, results: nat)
    | AnswerUnwritten(i: nat)
    | HandOver(i: nat)
    | Refuse(i: nat)
    | AckEvaluated(i: nat)
    | SinkPop(j: nat)
    | SinkExit(j: nat)
    | SinkWrite(j: nat)
    | SinkFail(j: nat)
    | SinkDone(j: nat)
    | CloseEval
    | CloseSink

  /** `complete_http`: only the first completion of a request sets its outcome. */
  function Complete(s: State, t: Task, status: nat): State {
    if t in s.outcomes then s.(lostRaces := s.lostRaces + 1) else s.(outcomes := s.outcomes[t := status])
  }

  function WithEval(s: State, i: nat, w: EvalWorker): State
    requires i < |s.evalWorkers|
  {
    s.(evalWorkers := s.evalWorkers[i := w])
  }

  function WithSink(s: State, j: nat, w: SinkWorker): State
    requires j < |s.sinkWorkers|
  {
    s.(sinkWorkers := s.sinkWorkers[j := w])
  }

  predicate Enabled(c: Config, s: State, step: Step) {
    match step
    case Accept(t) => t !in s.accepted && s.evalQueue.Accepts()
    case EvalPop(i) => i < |s.evalWorkers| && s.evalWorkers[i].Free? && s.evalQueue.values != []
    case EvalExit(i) => i < |s.evalWorkers| && s.evalWorkers[i].Free? && s.evalQueue.values == [] && s.evalQueue.closed
    case EvalFail(i) => i < |s.evalWorkers| && s.evalWorkers[i].Evaluating?
    case EvalDone(i, _) => i < |s.evalWorkers| && s.evalWorkers[i].Evaluating?
    case AnswerUnwritten(i) => i < |s.evalWorkers| && s.evalWorkers[i].Evaluated? && c.outputDisabled
    case HandOver(i) => i < |s.evalWorkers| && s.evalWorkers[i].Evaluated? && !c.outputDisabled && s.sinkQueue.Accepts()
    case Refuse(i) => i < |s.evalWorkers| && s.evalWorkers[i].Evaluated? && !c.outputDisabled && !s.sinkQueue.Accepts()
    case AckEvaluated(i) => i < |s.evalWorkers| && s.evalWorkers[i].Handed?
    case SinkPop(j) => j < |s.sinkWorkers| && s.sinkWorkers[j].Waiting? && s.sinkQueue.values != []
    case SinkExit(j) => j < |s.sinkWorkers| && s.sinkWorkers[j].Waiting? && s.sinkQueue.values == [] && s.sinkQueue.closed
    case SinkWrite(j) => j < |s.sinkWorkers| && s.sinkWorkers[j].Writing? && s.sinkWorkers[j].left > 0
    case SinkFail(j) => j < |s.sinkWorkers| && s.sinkWorkers[j].Writing? && s.sinkWorkers[j].left > 0
    case SinkDone(j) => j < |s.sinkWorkers| && s.sinkWorkers[j].Writing? && s.sinkWorkers[j].left == 0
    case CloseEval => !s.evalQueue.closed
    case CloseSink => !s.sinkQueue.closed && s.evalQueue.closed && forall i | 0 <= i < |s.evalWorkers| :: s.evalWorkers[i].EvalGone?
  }

  function Apply(c: Config, s: State, step: Step): State
    requires Enabled(c, s, step)
  {
    match step
    case Accept(t) => s.(evalQueue := s.evalQueue.Push(t), accepted := s.accepted + {t})
    case EvalPop(i) => WithEval(s, i, Evaluating(s.evalQueue.values[0])).(evalQueue := s.evalQueue.Rest())
    case EvalExit(i) => WithEval(s, i, EvalGone)
    case EvalFail(i) => Complete(WithEval(s, i, Free), s.evalWorkers[i].task, FAILED)
    case EvalDone(i, n) =>
      var t := s.evalWorkers[i].task;
      WithEval(s, i, Evaluated(t, n)).(needed := s.needed[t := n], written := s.written[t := 0])
    case AnswerUnwritten(i) => Complete(WithEval(s, i, Free), s.evalWorkers[i].task, OK)
    case HandOver(i) =>
      var t := s.evalWorkers[i].task;
      WithEval(s, i, if c.durable then Free else Handed(t)).(
        sinkQueue := s.sinkQueue.Push(SinkTask(t, s.evalWorkers[i].results)), handed := s.handed + {t})
    case Refuse(i) => Complete(WithEval(s, i, Free), s.evalWorkers[i].task, UNAVAILABLE)
    case AckEvaluated(i) => Complete(WithEval(s, i, Free), s.evalWorkers[i].task, OK)
    case SinkPop(j) =>
      var q := s.sinkQueue.values[0];
      WithSink(s, j, Writing(q.task, q.results)).(sinkQueue := s.sinkQueue.Rest())
    case SinkExit(j) => WithSink(s, j, SinkGone)
    case SinkWrite(j) =>
      var w := s.sinkWorkers[j];
      WithSink(s, j, Writing(w.task, w.left - 1)).(written := s.written[w.task := Count(s.written, w.task) + 1])
    case SinkFail(j) =>
      if c.durable then Complete(WithSink(s, j, Waiting), s.sinkWorkers[j].task, FAILED) else WithSink(s, j, Waiting)
    case SinkDone(j) =>
      if c.durable then Complete(WithSink(s, j, Waiting), s.sinkWorkers[j].task, OK) else WithSink(s, j, Waiting)
    case CloseEval => s.(evalQueue := s.evalQueue.Close())
    case CloseSink => s.(sinkQueue := s.sinkQueue.Close())
  }

  function Count(m: map<Task, nat>, t: Task): nat {
    if t in m then m[t] else 0
  }

  ghost predicate Init(s: State) {
    && s.evalQueue.values == [] && s.sinkQueue.values == []
    && !s.evalQueue.closed && !s.sinkQueue.closed
    && s.evalQueue.capacity >= 1 && s.sinkQueue.capacity >= 1
    && |s.evalWorkers| >= 1 && |s.sinkWorkers| >= 1
    && (forall i | 0 <= i < |s.evalWorkers| :: s.evalWorkers[i].Free?)
    && (forall j | 0 <= j < |s.sinkWorkers| :: s.sinkWorkers[j].Waiting?)
    && s.accepted == {} && s.outcomes == map[] && s.lostRaces == 0
    && s.handed == {} && s.needed == map[] && s.written == map[]
  }

  ghost predicate Next(c: Config, s: State, s': State) {
    exists step :: Enabled(c, s, step) && s' == Apply(c, s, step)
  }

  // ---- Who holds a request --------------------------------------------------------------------------------

  function One(held: Task, t: Task): nat {
    if held == t then 1 else 0
  }

  /** Whether an evaluation worker still answers for t; `work` leaves out a request it has handed over. */
  function EvalLoad(w: EvalWorker, t: Task, work: bool): nat {
    match w
    case Evaluating(held) => One(held, t)
    case Evaluated(held, _) => One(held, t)
    case Handed(held) => if work then 0 else One(held, t)
    case _ => 0
  }

  function SinkLoad(w: SinkWorker, t: Task): nat {
    if w.Writing? then One(w.task, t) else 0
  }

  function EvalLoads(ws: seq<EvalWorker>, t: Task, work: bool): (loads: seq<nat>)
    ensures |loads| == |ws| && forall i | 0 <= i < |ws| :: loads[i] == EvalLoad(ws[i], t, work)
  {
    seq(|ws|, i requires 0 <= i < |ws| => EvalLoad(ws[i], t, work))
  }

  function SinkLoads(ws: seq<SinkWorker>, t: Task): (loads: seq<nat>)
    ensures |loads| == |ws| && forall j | 0 <= j < |ws| :: loads[j] == SinkLoad(ws[j], t)
  {
    seq(|ws|, j requires 0 <= j < |ws| => SinkLoad(ws[j], t))
  }

  function QueueLoads(q: seq<Task>, t: Task): (loads: seq<nat>)
    ensures |loads| == |q| && forall k | 0 <= k < |q| :: loads[k] == One(q[k], t)
  {
    seq(|q|, k requires 0 <= k < |q| => One(q[k], t))
  }

  function SinkQueueLoads(q: seq<SinkTask>, t: Task): (loads: seq<nat>)
    ensures |loads| == |q| && forall k | 0 <= k < |q| :: loads[k] == One(q[k].task, t)
  {
    seq(|q|, k requires 0 <= k < |q| => One(q[k].task, t))
  }

  function EvalPart(s: State, t: Task, work: bool): nat {
    Sum(QueueLoads(s.evalQueue.values, t)) + Sum(EvalLoads(s.evalWorkers, t, work))
  }

  function SinkPart(s: State, t: Task): nat {
    Sum(SinkQueueLoads(s.sinkQueue.values, t)) + Sum(SinkLoads(s.sinkWorkers, t))
  }

  /** In how many places request t waits for someone to answer it. */
  function Owners(c: Config, s: State, t: Task): nat {
    EvalPart(s, t, false) + if c.durable then SinkPart(s, t) else 0
  }

  /** In how many places t's records or results still have work to be done on them. */
  function Work(s: State, t: Task): nat {
    EvalPart(s, t, true) + SinkPart(s, t)
  }

  lemma EvalMoves(ws: seq<EvalWorker>, i: nat, w: EvalWorker, t: Task, work: bool)
    requires i < |ws|
    ensures Sum(EvalLoads(ws[i := w], t, work)) + EvalLoad(ws[i], t, work) == Sum(EvalLoads(ws, t, work)) + EvalLoad(w, t, work)
  {
    SumUpdate(EvalLoads(ws, t, work), i, EvalLoad(w, t, work));
    assert EvalLoads(ws[i := w], t, work) == EvalLoads(ws, t, work)[i := EvalLoad(w, t, work)];
  }

  lemma SinkMoves(ws: seq<SinkWorker>, j: nat, w: SinkWorker, t: Task)
    requires j < |ws|
    ensures Sum(SinkLoads(ws[j := w], t)) + SinkLoad(ws[j], t) == Sum(SinkLoads(ws, t)) + SinkLoad(w, t)
  {
    SumUpdate(SinkLoads(ws, t), j, SinkLoad(w, t));
    assert SinkLoads(ws[j := w], t) == SinkLoads(ws, t)[j := SinkLoad(w, t)];
  }

  lemma EvalQueueFront(q: seq<Task>, t: Task)
    requires q != []
    ensures Sum(QueueLoads(q, t)) == One(q[0], t) + Sum(QueueLoads(q[1..], t))
  {
    assert QueueLoads(q, t)[1..] == QueueLoads(q[1..], t);
  }

  lemma EvalQueueBack(q: seq<Task>, x: Task, t: Task)
    ensures Sum(QueueLoads(q + [x], t)) == Sum(QueueLoads(q, t)) + One(x, t)
  {
    SumPush(QueueLoads(q, t), One(x, t));
    assert QueueLoads(q + [x], t) == QueueLoads(q, t) + [One(x, t)];
  }

  lemma SinkQueueFront(q: seq<SinkTask>, t: Task)
    requires q != []
    ensures Sum(SinkQueueLoads(q, t)) == One(q[0].task, t) + Sum(SinkQueueLoads(q[1..], t))
  {
    assert SinkQueueLoads(q, t)[1..] == SinkQueueLoads(q[1..], t);
  }

  lemma SinkQueueBack(q: seq<SinkTask>, x: SinkTask, t: Task)
    ensures Sum(SinkQueueLoads(q + [x], t)) == Sum(SinkQueueLoads(q, t)) + One(x.task, t)
  {
    SumPush(SinkQueueLoads(q, t), One(x.task, t));
    assert SinkQueueLoads(q + [x], t) == SinkQueueLoads(q, t) + [One(x.task, t)];
  }

  /** Whether a step brings t in. */
  function Enters(step: Step, t: Task): nat {
    if step.Accept? then One(step.t, t) else 0
  }

  /** The request the step's worker holds. */
  function Held(s: State, step: Step): Option<Task> {
    match step
    case EvalFail(i) => EvalHeld(s, i)
    case AnswerUnwritten(i) => EvalHeld(s, i)
    case HandOver(i) => EvalHeld(s, i)
    case Refuse(i) => EvalHeld(s, i)
    case AckEvaluated(i) => EvalHeld(s, i)
    case SinkFail(j) => SinkHeld(s, j)
    case SinkDone(j) => SinkHeld(s, j)
    case _ => None
  }

  function EvalHeld(s: State, i: nat): Option<Task> {
    if i >= |s.evalWorkers| then None
    else
      match s.evalWorkers[i]
      case Evaluating(t) => Some(t)
      case Evaluated(t, _) => Some(t)
      case Handed(t) => Some(t)
      case _ => None
  }

  function SinkHeld(s: State, j: nat): Option<Task> {
    if j < |s.sinkWorkers| && s.sinkWorkers[j].Writing? then Some(s.sinkWorkers[j].task) else None
  }

  function Is(held: Option<Task>, t: Task): nat {
    if held == Some(t) then 1 else 0
  }

  predicate OnSinkSide(step: Step) {
    step.SinkPop? || step.SinkExit? || step.SinkWrite? || step.SinkFail? || step.SinkDone? || step.CloseSink?
  }

  /** The steps that complete a request. */
  predicate Completes(c: Config, step: Step) {
    || step.EvalFail? || step.AnswerUnwritten? || step.Refuse? || step.AckEvaluated?
    || (c.durable && (step.SinkFail? || step.SinkDone?))
  }

  /** The steps after which nobody works on the request any more. */
  predicate Retires(step: Step) {
    step.EvalFail? || step.AnswerUnwritten? || step.Refuse? || step.SinkFail? || step.SinkDone?
  }

  /** Whether a step completes t, is done with t, hands t to the sink side. */
  function Answers(c: Config, s: State, step: Step, t: Task): nat {
    if Completes(c, step) then Is(Held(s, step), t) else 0
  }

  function Leaves(s: State, step: Step, t: Task): nat {
    if Retires(step) then Is(Held(s, step), t) else 0
  }

  function Crosses(s: State, step: Step, t: Task): nat {
    if step.HandOver? then Is(Held(s, step), t) else 0
  }

  lemma EvalPartStep(c: Config, s: State, step: Step, t: Task, work: bool)
    requires Enabled(c, s, step) && !OnSinkSide(step)
    ensures var s' := Apply(c, s, step);
            EvalPart(s', t, work) + (if work then Leaves(s, step, t) else Answers(c, s, step, t))
            + (if work || c.durable then Crosses(s, step, t) else 0)
            == EvalPart(s, t, work) + Enters(step, t)
  {
    hide Sum, QueueLoads, EvalLoads;
    if step.Accept? {
      EvalQueueBack(s.evalQueue.values, step.t, t);
    } else if step.EvalPop? {
      EvalMoves(s.evalWorkers, step.i, Evaluating(s.evalQueue.values[0]), t, work);
      EvalQueueFront(s.evalQueue.values, t);
    } else if step.CloseEval? {
    } else {
      EvalWorkersStep(c, s, step, t, work);
    }
  }

  lemma EvalWorkersStep(c: Config, s: State, step: Step, t: Task, work: bool)
    requires Enabled(c, s, step) && !OnSinkSide(step) && !step.Accept? && !step.EvalPop? && !step.CloseEval?
    ensures Apply(c, s, step).evalQueue == s.evalQueue
    ensures var ws := s.evalWorkers;
            Sum(EvalLoads(Apply(c, s, step).evalWorkers, t, work))
            + (if work then Leaves(s, step, t) else Answers(c, s, step, t))
            + (if work || c.durable then Crosses(s, step, t) else 0) == Sum(EvalLoads(ws, t, work))
  {
    hide Sum, EvalLoads;
    var ws := s.evalWorkers;
    var w := if step.EvalExit? then EvalGone
             else if step.EvalDone? then Evaluated(ws[step.i].task, step.results)
             else if step.HandOver? && !c.durable then Handed(ws[step.i].task)
             else Free;
    EvalMoves(ws, step.i, w, t, work);
    assert Apply(c, s, step).evalWorkers == ws[step.i := w];
  }

  lemma SinkPartStep(c: Config, s: State, step: Step, t: Task)
    requires Enabled(c, s, step) && OnSinkSide(step)
    ensures SinkPart(Apply(c, s, step), t) + Leaves(s, step, t) == SinkPart(s, t)
  {
    hide Sum, SinkQueueLoads, SinkLoads;
    var ws, q := s.sinkWorkers, s.sinkQueue.values;
    match step
    case SinkPop(j) =>
      SinkMoves(ws, j, Writing(q[0].task, q[0].results), t);
      SinkQueueFront(q, t);
    case SinkExit(j) => SinkMoves(ws, j, SinkGone, t);
    case SinkWrite(j) => SinkMoves(ws, j, Writing(ws[j].task, ws[j].left - 1), t);
    case SinkFail(j) => SinkMoves(ws, j, Waiting, t);
    case SinkDone(j) => SinkMoves(ws, j, Waiting, t);
    case CloseSink =>
  }

  lemma SinkPartGrows(c: Config, s: State, step: Step, t: Task)
    requires Enabled(c, s, step) && !OnSinkSide(step)
    ensures SinkPart(Apply(c, s, step), t) == SinkPart(s, t) + Crosses(s, step, t)
  {
    if step.HandOver? {
      SinkQueueBack(s.sinkQueue.values, SinkTask(s.evalWorkers[step.i].task, s.evalWorkers[step.i].results), t);
    }
  }

  lemma EvalPartStays(c: Config, s: State, step: Step, t: Task, work: bool)
    requires Enabled(c, s, step) && OnSinkSide(step)
    ensures EvalPart(Apply(c, s, step), t, work) == EvalPart(s, t, work)
  {
  }

  /** Only `Accept` adds a place; only a step that is done with a request takes one away. */
  lemma WorkStep(c: Config, s: State, step: Step, t: Task)
    requires Enabled(c, s, step)
    ensures Work(Apply(c, s, step), t) + Leaves(s, step, t) == Work(s, t) + Enters(step, t)
  {
    if OnSinkSide(step) {
      SinkPartStep(c, s, step, t);
      EvalPartStays(c, s, step, t, true);
    } else {
      EvalPartStep(c, s, step, t, true);
      SinkPartGrows(c, s, step, t);
    }
  }

  lemma OwnersStep(c: Config, s: State, step: Step, t: Task)
    requires Enabled(c, s, step)
    ensures Owners(c, Apply(c, s, step), t) + Answers(c, s, step, t) == Owners(c, s, t) + Enters(step, t)
  {
    if OnSinkSide(step) {
      SinkPartStep(c, s, step, t);
      EvalPartStays(c, s, step, t, false);
    } else {
      EvalPartStep(c, s, step, t, false);
      SinkPartGrows(c, s, step, t);
    }
  }

  // ---- Each request is answered once ---------------------------------------------------------------------

  predicate Open(s: State, t: Task) {
    t in s.accepted && t !in s.outcomes
  }

  /** Every accepted request without an outcome is owed one by exactly one holder, and nobody owes
      anything else; no completion ever lost to an earlier one. */
  ghost predicate OwedOnce(c: Config, s: State) {
    && (forall t :: Owners(c, s, t) == if Open(s, t) then 1 else 0)
    && s.outcomes.Keys <= s.accepted
    && s.lostRaces == 0
  }

  /** A request's data is in at most one place, and only accepted requests are anywhere. */
  ghost predicate InOnePlace(s: State) {
    forall t :: Work(s, t) <= if t in s.accepted then 1 else 0
  }

  lemma EvalHolds(c: Config, s: State, i: nat, t: Task)
    requires EvalHeld(s, i) == Some(t)
    ensures Owners(c, s, t) >= 1
    ensures !s.evalWorkers[i].Handed? ==> Work(s, t) >= 1
  {
    SumHas(EvalLoads(s.evalWorkers, t, false), i);
    SumHas(EvalLoads(s.evalWorkers, t, true), i);
  }

  lemma SinkHolds(c: Config, s: State, j: nat, t: Task)
    requires SinkHeld(s, j) == Some(t)
    ensures c.durable ==> Owners(c, s, t) >= 1
    ensures Work(s, t) >= 1
  {
    SumHas(SinkLoads(s.sinkWorkers, t), j);
  }

  lemma HolderOwes(c: Config, s: State, step: Step)
    requires Enabled(c, s, step) && Completes(c, step)
    ensures Held(s, step).Some? && Owners(c, s, Held(s, step).value) >= 1
  {
    if step.SinkFail? || step.SinkDone? {
      SinkHolds(c, s, step.j, Held(s, step).value);
    } else {
      EvalHolds(c, s, step.i, Held(s, step).value);
    }
  }

  /** What a step does to the outcomes. */
  lemma OutcomeStep(c: Config, s: State, step: Step)
    requires Enabled(c, s, step)
    ensures var s' := Apply(c, s, step);
            if Completes(c, step) && Held(s, step).value !in s.outcomes then
              s'.outcomes.Keys == s.outcomes.Keys + {Held(s, step).value} && s'.lostRaces == s.lostRaces
            else if Completes(c, step) then s'.outcomes == s.outcomes
            else s'.outcomes == s.outcomes && s'.lostRaces == s.lostRaces
    ensures Apply(c, s, step).accepted == s.accepted + if step.Accept? then {step.t} else {}
  {
  }

  lemma OwedOnceStep(c: Config, s: State, step: Step)
    requires Enabled(c, s, step) && OwedOnce(c, s)
    ensures OwedOnce(c, Apply(c, s, step))
  {
    var s' := Apply(c, s, step);
    OutcomeStep(c, s, step);
    if Completes(c, step) { HolderOwes(c, s, step); }
    hide Apply, Enabled, Owners;
    forall t ensures Owners(c, s', t) == if Open(s', t) then 1 else 0 {
      OwnersStep(c, s, step, t);
    }
  }

  lemma InOnePlaceStep(c: Config, s: State, step: Step)
    requires Enabled(c, s, step) && InOnePlace(s)
    ensures InOnePlace(Apply(c, s, step))
  {
    var s' := Apply(c, s, step);
    OutcomeStep(c, s, step);
    forall t ensures Work(s', t) <= if t in s'.accepted then 1 else 0 {
      WorkStep(c, s, step, t);
    }
  }

  // ---- A 200 in durable mode ---------------------------------------------------------------------------------

  ghost predicate Untouched(s: State, t: Task, results: nat) {
    t in s.needed && s.needed[t] == results && t in s.written && s.written[t] == 0
  }

  ghost predicate PartWritten(s: State, t: Task, left: nat) {
    t in s.needed && t in s.written && s.written[t] + left == s.needed[t]
  }

  /** The results still to be written are where they are said to be. */
  ghost predicate WritesAccounted(s: State) {
    && (forall i | 0 <= i < |s.evalWorkers| && s.evalWorkers[i].Evaluated? ::
          Untouched(s, s.evalWorkers[i].task, s.evalWorkers[i].results))
    && (forall k | 0 <= k < |s.sinkQueue.values| ::
          Untouched(s, s.sinkQueue.values[k].task, s.sinkQueue.values[k].results))
    && (forall j | 0 <= j < |s.sinkWorkers| && s.sinkWorkers[j].Writing? ::
          PartWritten(s, s.sinkWorkers[j].task, s.sinkWorkers[j].left))
  }

  /** Only an `evaluated` acknowledgement waits behind a hand-over. */
  ghost predicate Acknowledging(c: Config, s: State) {
    forall i | 0 <= i < |s.evalWorkers| && s.evalWorkers[i].Handed? :: !c.durable && s.evalWorkers[i].task in s.handed
  }

  /** What a 200 promises: with a durable sink every result is written; with an early acknowledgement
      the results are in the sink queue's care. */
  ghost predicate Honest(c: Config, s: State) {
    forall t | t in s.outcomes && s.outcomes[t] == OK && !c.outputDisabled ::
      if c.durable then PartWritten(s, t, 0) else t in s.handed
  }

  /** What one worker evaluates, no one else has. */
  lemma EvalAlone(s: State, i: nat, t: Task)
    requires InOnePlace(s) && EvalHeld(s, i) == Some(t) && !s.evalWorkers[i].Handed?
    ensures forall k: nat | k != i && EvalHeld(s, k) == Some(t) :: s.evalWorkers[k].Handed?
    ensures forall k | 0 <= k < |s.sinkQueue.values| :: s.sinkQueue.values[k].task != t
    ensures forall j: nat :: SinkHeld(s, j) != Some(t)
  {
    var loads := EvalLoads(s.evalWorkers, t, true);
    assert Work(s, t) <= 1;
    SumHas(loads, i);
    forall k: nat | k != i && EvalHeld(s, k) == Some(t) ensures s.evalWorkers[k].Handed? {
      SumHasBoth(loads, i, k);
    }
    forall k | 0 <= k < |s.sinkQueue.values| ensures s.sinkQueue.values[k].task != t {
      SumHas(SinkQueueLoads(s.sinkQueue.values, t), k);
    }
    forall j: nat ensures SinkHeld(s, j) != Some(t) {
      if SinkHeld(s, j) == Some(t) { SumHas(SinkLoads(s.sinkWorkers, t), j); }
    }
  }

  lemma SinkAlone(s: State, j: nat, t: Task)
    requires InOnePlace(s) && SinkHeld(s, j) == Some(t)
    ensures forall k: nat | EvalHeld(s, k) == Some(t) :: s.evalWorkers[k].Handed?
    ensures forall k | 0 <= k < |s.sinkQueue.values| :: s.sinkQueue.values[k].task != t
    ensures forall k: nat | k != j :: SinkHeld(s, k) != Some(t)
  {
    var loads := SinkLoads(s.sinkWorkers, t);
    assert Work(s, t) <= 1;
    SumHas(loads, j);
    forall k: nat | EvalHeld(s, k) == Some(t) ensures s.evalWorkers[k].Handed? {
      SumHas(EvalLoads(s.evalWorkers, t, true), k);
    }
    forall k | 0 <= k < |s.sinkQueue.values| ensures s.sinkQueue.values[k].task != t {
      SumHas(SinkQueueLoads(s.sinkQueue.values, t), k);
    }
    forall k: nat | k != j ensures SinkHeld(s, k) != Some(t) {
      if SinkHeld(s, k) == Some(t) { SumHasBoth(loads, j, k); }
    }
  }

  lemma WritesAccountedStep(c: Config, s: State, step: Step)
    requires Enabled(c, s, step) && InOnePlace(s) && WritesAccounted(s)
    ensures WritesAccounted(Apply(c, s, step))
  {
    hide InOnePlace, Work, Owners;
    match step
    case EvalDone(i, n) =>
      EvalAlone(s, i, s.evalWorkers[i].task);
      EvalDoneWrites(c, s, i, n);
    case SinkWrite(j) =>
      SinkAlone(s, j, s.sinkWorkers[j].task);
      SinkWriteWrites(c, s, j);
    case _ => MovesKeepWrites(c, s, step);
  }

  lemma MovesKeepWrites(c: Config, s: State, step: Step)
    requires Enabled(c, s, step) && WritesAccounted(s) && !step.EvalDone? && !step.SinkWrite?
    ensures WritesAccounted(Apply(c, s, step))
  {
    if OnSinkSide(step) { SinkMovesKeep(c, s, step); } else { EvalMovesKeep(c, s, step); }
  }

  lemma SinkMovesKeep(c: Config, s: State, step: Step)
    requires Enabled(c, s, step) && WritesAccounted(s) && OnSinkSide(step) && !step.SinkWrite?
    ensures WritesAccounted(Apply(c, s, step))
  {
    var s' := Apply(c, s, step);
    hide Untouched;
    assert s'.evalWorkers == s.evalWorkers && s'.needed == s.needed && s'.written == s.written;
    forall j | 0 <= j < |s'.sinkWorkers| && s'.sinkWorkers[j].Writing?
      ensures PartWritten(s', s'.sinkWorkers[j].task, s'.sinkWorkers[j].left) {
      if step.SinkPop? && step.j == j { FrontUntouched(s); }
    }
    SameCounts(s, s');
  }

  lemma FrontUntouched(s: State)
    requires WritesAccounted(s) && s.sinkQueue.values != []
    ensures PartWritten(s, s.sinkQueue.values[0].task, s.sinkQueue.values[0].results)
  {
  }

  lemma SameCounts(s: State, s': State)
    requires s'.needed == s.needed && s'.written == s.written
    ensures forall t, n :: Untouched(s', t, n) == Untouched(s, t, n)
    ensures forall t, n :: PartWritten(s', t, n) == PartWritten(s, t, n)
  {
  }

  lemma EvalMovesKeep(c: Config, s: State, step: Step)
    requires Enabled(c, s, step) && WritesAccounted(s) && !OnSinkSide(step) && !step.EvalDone?
    ensures WritesAccounted(Apply(c, s, step))
  {
    var s' := Apply(c, s, step);
    hide Untouched, PartWritten;
    assert s'.sinkWorkers == s.sinkWorkers && s'.needed == s.needed && s'.written == s.written;
    SameCounts(s, s');
    forall i | 0 <= i < |s'.evalWorkers| && s'.evalWorkers[i].Evaluated? ensures s.evalWorkers[i] == s'.evalWorkers[i] {
    }
  }

  lemma EvalDoneWrites(c: Config, s: State, i: nat, n: nat)
    requires Enabled(c, s, EvalDone(i, n)) && WritesAccounted(s)
    requires forall k: nat | k != i && EvalHeld(s, k) == EvalHeld(s, i) :: s.evalWorkers[k].Handed?
    requires forall k | 0 <= k < |s.sinkQueue.values| :: Some(s.sinkQueue.values[k].task) != EvalHeld(s, i)
    requires forall j: nat :: SinkHeld(s, j) != EvalHeld(s, i)
    ensures WritesAccounted(Apply(c, s, EvalDone(i, n)))
  {
    var t, s' := s.evalWorkers[i].task, Apply(c, s, EvalDone(i, n));
    forall k | 0 <= k < |s'.evalWorkers| && s'.evalWorkers[k].Evaluated?
      ensures Untouched(s', s'.evalWorkers[k].task, s'.evalWorkers[k].results) {
      if k != i { assert EvalHeld(s, k) == Some(s.evalWorkers[k].task); }
    }
    forall j | 0 <= j < |s'.sinkWorkers| && s'.sinkWorkers[j].Writing?
      ensures PartWritten(s', s'.sinkWorkers[j].task, s'.sinkWorkers[j].left) {
      assert SinkHeld(s, j) == Some(s.sinkWorkers[j].task);
    }
  }

  lemma SinkWriteWrites(c: Config, s: State, j: nat)
    requires Enabled(c, s, SinkWrite(j)) && WritesAccounted(s)
    requires forall k: nat | EvalHeld(s, k) == SinkHeld(s, j) :: s.evalWorkers[k].Handed?
    requires forall k | 0 <= k < |s.sinkQueue.values| :: Some(s.sinkQueue.values[k].task) != SinkHeld(s, j)
    requires forall k: nat | k != j :: SinkHeld(s, k) != SinkHeld(s, j)
    ensures WritesAccounted(Apply(c, s, SinkWrite(j)))
  {
    var s' := Apply(c, s, SinkWrite(j));
    forall k | 0 <= k < |s'.evalWorkers| && s'.evalWorkers[k].Evaluated?
      ensures Untouched(s', s'.evalWorkers[k].task, s'.evalWorkers[k].results) {
      assert EvalHeld(s, k) == Some(s.evalWorkers[k].task);
    }
    forall k | 0 <= k < |s'.sinkWorkers| && s'.sinkWorkers[k].Writing?
      ensures PartWritten(s', s'.sinkWorkers[k].task, s'.sinkWorkers[k].left) {
      if k != j { assert SinkHeld(s, k) == Some(s.sinkWorkers[k].task); }
    }
  }

  lemma AcknowledgingStep(c: Config, s: State, step: Step)
    requires Enabled(c, s, step) && Acknowledging(c, s)
    ensures Acknowledging(c, Apply(c, s, step))
  {
    var s' := Apply(c, s, step);
    assert s.handed <= s'.handed;
  }

  /** The request whose result counts a step changes is still open. */
  lemma CountsOfOpen(c: Config, s: State, step: Step, t: Task)
    requires Enabled(c, s, step) && OwedOnce(c, s) && c.durable && t in s.outcomes && PartWritten(s, t, 0)
    ensures PartWritten(Apply(c, s, step), t, 0)
  {
    match step
    case EvalDone(i, n) => if EvalHeld(s, i) == Some(t) { EvalHolds(c, s, i, t); }
    case SinkWrite(j) => if SinkHeld(s, j) == Some(t) { SinkHolds(c, s, j, t); }
    case _ =>
  }

  /** A step that answers 200 keeps its promise. */
  lemma GoodAnswer(c: Config, s: State, step: Step, t: Task)
    requires Enabled(c, s, step) && WritesAccounted(s) && Acknowledging(c, s)
    requires t !in s.outcomes && t in Apply(c, s, step).outcomes && Apply(c, s, step).outcomes[t] == OK && !c.outputDisabled
    ensures if c.durable then PartWritten(Apply(c, s, step), t, 0) else t in Apply(c, s, step).handed
  {
  }

  lemma OutcomesStay(c: Config, s: State, step: Step, t: Task)
    requires Enabled(c, s, step) && t in s.outcomes
    ensures t in Apply(c, s, step).outcomes && Apply(c, s, step).outcomes[t] == s.outcomes[t]
  {
  }

  lemma HandedStays(c: Config, s: State, step: Step)
    requires Enabled(c, s, step)
    ensures s.handed <= Apply(c, s, step).handed
  {
  }

  lemma HonestStep(c: Config, s: State, step: Step)
    requires Enabled(c, s, step) && OwedOnce(c, s) && WritesAccounted(s) && Acknowledging(c, s) && Honest(c, s)
    ensures Honest(c, Apply(c, s, step))
  {
    var s' := Apply(c, s, step);
    hide Apply, Enabled, OwedOnce, WritesAccounted, Acknowledging, PartWritten;
    forall t | t in s'.outcomes && s'.outcomes[t] == OK && !c.outputDisabled
      ensures if c.durable then PartWritten(s', t, 0) else t in s'.handed
    {
      if t in s.outcomes {
        OutcomesStay(c, s, step, t);
        HandedStays(c, s, step);
        if c.durable { CountsOfOpen(c, s, step, t); }
      } else {
        GoodAnswer(c, s, step, t);
      }
    }
  }

  // ---- Shutdown ------------------------------------------------------------------------------------------------

  /** A worker leaves only a closed and drained queue, and the sink queue closes only behind the last
      evaluation worker. */
  ghost predicate Ordered(s: State) {
    && |s.evalWorkers| >= 1 && |s.sinkWorkers| >= 1
    && (s.sinkQueue.closed ==> forall i | 0 <= i < |s.evalWorkers| :: s.evalWorkers[i].EvalGone?)
    && (forall i | 0 <= i < |s.evalWorkers| && s.evalWorkers[i].EvalGone? :: s.evalQueue.closed && s.evalQueue.values == [])
    && (forall j | 0 <= j < |s.sinkWorkers| && s.sinkWorkers[j].SinkGone? :: s.sinkQueue.closed && s.sinkQueue.values == [])
  }

  lemma OrderedStep(c: Config, s: State, step: Step)
    requires Enabled(c, s, step) && Ordered(s)
    ensures Ordered(Apply(c, s, step))
  {
    var s' := Apply(c, s, step);
    match step
    case EvalExit(i) =>
    case SinkExit(j) =>
    case CloseSink =>
    case HandOver(i) =>
    case Accept(t) =>
    case EvalPop(i) =>
    case EvalDone(i, n) =>
    case CloseEval =>
    case _ =>
      if OnSinkSide(step) { SinkSideOrdered(c, s, step); } else { AnsweringOrdered(c, s, step); }
  }

  lemma SinkSideOrdered(c: Config, s: State, step: Step)
    requires Enabled(c, s, step) && Ordered(s) && (step.SinkPop? || step.SinkWrite? || step.SinkFail? || step.SinkDone?)
    ensures Ordered(Apply(c, s, step))
  {
    var s' := Apply(c, s, step);
    assert s'.evalWorkers == s.evalWorkers && s'.evalQueue == s.evalQueue && s'.sinkQueue.closed == s.sinkQueue.closed;
    assert forall k | 0 <= k < |s'.sinkWorkers| && s'.sinkWorkers[k].SinkGone? :: s.sinkWorkers[k].SinkGone?;
  }

  lemma AnsweringOrdered(c: Config, s: State, step: Step)
    requires Enabled(c, s, step) && Ordered(s) && (step.EvalFail? || step.AnswerUnwritten? || step.Refuse? || step.AckEvaluated?)
    ensures Ordered(Apply(c, s, step))
  {
    var s' := Apply(c, s, step);
    assert s'.sinkWorkers == s.sinkWorkers && s'.evalQueue == s.evalQueue && s'.sinkQueue == s.sinkQueue;
    assert forall k | 0 <= k < |s'.evalWorkers| && s'.evalWorkers[k].EvalGone? :: s.evalWorkers[k].EvalGone?;
  }

  ghost predicate Finished(s: State) {
    && (forall i | 0 <= i < |s.evalWorkers| :: s.evalWorkers[i].EvalGone?)
    && (forall j | 0 <= j < |s.sinkWorkers| :: s.sinkWorkers[j].SinkGone?)
  }

  /** Once every worker has left, every accepted request has its outcome. */
  lemma NobodyForgotten(c: Config, s: State)
    requires OwedOnce(c, s) && Ordered(s) && Finished(s)
    ensures s.outcomes.Keys == s.accepted
  {
    assert s.evalWorkers[0].EvalGone? && s.sinkWorkers[0].SinkGone?;
    forall t | t in s.accepted ensures t in s.outcomes {
      assert Owners(c, s, t) == if Open(s, t) then 1 else 0;
      SumNone(EvalLoads(s.evalWorkers, t, false));
      SumNone(SinkLoads(s.sinkWorkers, t));
      SumNone(QueueLoads(s.evalQueue.values, t));
      SumNone(SinkQueueLoads(s.sinkQueue.values, t));
    }
  }

  // ---- All runs --------------------------------------------------------------------------------------------------

  ghost predicate Safe(c: Config, s: State) {
    OwedOnce(c, s) && InOnePlace(s) && WritesAccounted(s) && Acknowledging(c, s) && Honest(c, s) && Ordered(s)
  }

  lemma InitSafe(c: Config, s: State)
    requires Init(s)
    ensures Safe(c, s)
  {
    forall t, work | true ensures EvalPart(s, t, work) == 0 && SinkPart(s, t) == 0 {
      SumNone(EvalLoads(s.evalWorkers, t, work));
      SumNone(SinkLoads(s.sinkWorkers, t));
    }
  }

  lemma StepSafe(c: Config, s: State, step: Step)
    requires Enabled(c, s, step) && Safe(c, s)
    ensures Safe(c, Apply(c, s, step))
  {
    hide Apply, Enabled, OwedOnce, InOnePlace, WritesAccounted, Acknowledging, Honest, Ordered;
    OwedOnceStep(c, s, step);
    InOnePlaceStep(c, s, step);
    WritesAccountedStep(c, s, step);
    AcknowledgingStep(c, s, step);
    HonestStep(c, s, step);
    OrderedStep(c, s, step);
  }

  ghost predicate Run(c: Config, run: seq<State>) {
    && run != [] && Init(run[0])
    && forall k | 0 <= k < |run| - 1 :: Next(c, run[k], run[k + 1])
  }

  /** In every interleaving, after every step. */
  lemma {:induction false} RunSafe(c: Config, run: seq<State>, k: nat)
    requires Run(c, run) && k < |run|
    ensures Safe(c, run[k])
  {
    hide Apply, Enabled, Safe, Init;
    if k == 0 {
      InitSafe(c, run[0]);
    } else {
      RunSafe(c, run, k - 1);
      assert Next(c, run[k - 1], run[k - 1 + 1]);
      var step :| Enabled(c, run[k - 1], step) && run[k] == Apply(c, run[k - 1], step);
      StepSafe(c, run[k - 1], step);
    }
  }

  /** When every worker has left, every accepted request was answered exactly once. */
  lemma RunAnswersAll(c: Config, run: seq<State>)
    requires Run(c, run) && Finished(run[|run| - 1])
    ensures run[|run| - 1].outcomes.Keys == run[|run| - 1].accepted && run[|run| - 1].lostRaces == 0
  {
    RunSafe(c, run, |run| - 1);
    NobodyForgotten(c, run[|run| - 1]);
  }

  // ---- The shutdown ends -------------------------------------------------------------------------------------------

  /** Until every worker has left, some worker or the shutting-down thread can move. */
  lemma NeverStuck(c: Config, s: State)
    requires !Finished(s)
    ensures exists step :: Enabled(c, s, step)
  {
    if i :| 0 <= i < |s.evalWorkers| && !s.evalWorkers[i].EvalGone? {
      EvalMovesOn(c, s, i);
    } else if !s.evalQueue.closed {
      assert Enabled(c, s, CloseEval);
    } else if !s.sinkQueue.closed {
      assert Enabled(c, s, CloseSink);
    } else {
      var j :| 0 <= j < |s.sinkWorkers| && !s.sinkWorkers[j].SinkGone?;
      var step := match s.sinkWorkers[j]
        case Waiting => if s.sinkQueue.values != [] then SinkPop(j) else SinkExit(j)
        case Writing(_, left) => if left > 0 then SinkWrite(j) else SinkDone(j)
        case SinkGone => CloseSink;
      assert Enabled(c, s, step);
    }
  }

  lemma EvalMovesOn(c: Config, s: State, i: nat)
    requires i < |s.evalWorkers| && !s.evalWorkers[i].EvalGone?
    ensures exists step :: Enabled(c, s, step)
  {
    var step := match s.evalWorkers[i]
      case Free => if s.evalQueue.values != [] then EvalPop(i) else if s.evalQueue.closed then EvalExit(i) else CloseEval
      case Evaluating(_) => EvalFail(i)
      case Evaluated(_, _) => if c.outputDisabled then AnswerUnwritten(i) else if s.sinkQueue.Accepts() then HandOver(i) else Refuse(i)
      case Handed(_) => AckEvaluated(i)
      case EvalGone => CloseEval;
    assert Enabled(c, s, step);
  }

  /** Evaluations still to come. */
  function Ahead(s: State): nat {
    2 * |s.evalQueue.values| + Sum(EvalAhead(s.evalWorkers))
  }

  function EvalAhead(ws: seq<EvalWorker>): (loads: seq<nat>)
    ensures |loads| == |ws| && forall i | 0 <= i < |ws| :: loads[i] == if ws[i].Evaluating? then 1 else 0
  {
    seq(|ws|, i requires 0 <= i < |ws| => if ws[i].Evaluating? then 1 else 0)
  }

  function EvalCost(w: EvalWorker): nat {
    match w
    case EvalGone => 0
    case Free => 1
    case Evaluating(_) => 1
    case Handed(_) => 2
    case Evaluated(_, results) => results + 6
  }

  function SinkCost(w: SinkWorker): nat {
    match w
    case SinkGone => 0
    case Waiting => 1
    case Writing(_, left) => left + 2
  }

  function EvalCosts(ws: seq<EvalWorker>): (loads: seq<nat>)
    ensures |loads| == |ws| && forall i | 0 <= i < |ws| :: loads[i] == EvalCost(ws[i])
  {
    seq(|ws|, i requires 0 <= i < |ws| => EvalCost(ws[i]))
  }

  function SinkCosts(ws: seq<SinkWorker>): (loads: seq<nat>)
    ensures |loads| == |ws| && forall j | 0 <= j < |ws| :: loads[j] == SinkCost(ws[j])
  {
    seq(|ws|, j requires 0 <= j < |ws| => SinkCost(ws[j]))
  }

  function QueueCosts(q: seq<SinkTask>): (loads: seq<nat>)
    ensures |loads| == |q| && forall k | 0 <= k < |q| :: loads[k] == q[k].results + 3
  {
    seq(|q|, k requires 0 <= k < |q| => q[k].results + 3)
  }

  /** Moves left when no evaluation ends and none starts. */
  function Moves(s: State): nat {
    Sum(EvalCosts(s.evalWorkers)) + Sum(QueueCosts(s.sinkQueue.values)) + Sum(SinkCosts(s.sinkWorkers))
    + (if s.evalQueue.closed then 0 else 1) + if s.sinkQueue.closed then 0 else 1
  }

  lemma AheadMoves(ws: seq<EvalWorker>, i: nat, w: EvalWorker)
    requires i < |ws|
    ensures Sum(EvalAhead(ws[i := w])) + EvalAhead(ws)[i] == Sum(EvalAhead(ws)) + if w.Evaluating? then 1 else 0
    ensures Sum(EvalCosts(ws[i := w])) + EvalCost(ws[i]) == Sum(EvalCosts(ws)) + EvalCost(w)
  {
    SumUpdate(EvalAhead(ws), i, if w.Evaluating? then 1 else 0);
    assert EvalAhead(ws[i := w]) == EvalAhead(ws)[i := if w.Evaluating? then 1 else 0];
    SumUpdate(EvalCosts(ws), i, EvalCost(w));
    assert EvalCosts(ws[i := w]) == EvalCosts(ws)[i := EvalCost(w)];
  }

  lemma SinkCostMoves(ws: seq<SinkWorker>, j: nat, w: SinkWorker)
    requires j < |ws|
    ensures Sum(SinkCosts(ws[j := w])) + SinkCost(ws[j]) == Sum(SinkCosts(ws)) + SinkCost(w)
  {
    SumUpdate(SinkCosts(ws), j, SinkCost(w));
    assert SinkCosts(ws[j := w]) == SinkCosts(ws)[j := SinkCost(w)];
  }

  lemma QueueCostFront(q: seq<SinkTask>)
    requires q != []
    ensures Sum(QueueCosts(q)) == q[0].results + 3 + Sum(QueueCosts(q[1..]))
  {
    assert QueueCosts(q)[1..] == QueueCosts(q[1..]);
  }

  lemma QueueCostBack(q: seq<SinkTask>, x: SinkTask)
    ensures Sum(QueueCosts(q + [x])) == Sum(QueueCosts(q)) + x.results + 3
  {
    SumPush(QueueCosts(q), x.results + 3);
    assert QueueCosts(q + [x]) == QueueCosts(q) + [x.results + 3];
  }

  /** Every step but `Accept` uses up an evaluation or, with the same evaluations ahead, a move. */
  lemma StepCosts(c: Config, s: State, step: Step)
    requires Enabled(c, s, step) && !step.Accept?
    ensures var s' := Apply(c, s, step);
            Ahead(s') < Ahead(s) || (Ahead(s') == Ahead(s) && Moves(s') < Moves(s))
  {
    if OnSinkSide(step) {
      SinkStepCosts(c, s, step);
    } else if step.HandOver? {
      HandOverCosts(c, s, step.i);
    } else if !step.CloseEval? {
      EvalStepCosts(c, s, step);
    }
  }

  lemma SinkStepCosts(c: Config, s: State, step: Step)
    requires Enabled(c, s, step) && OnSinkSide(step)
    ensures Ahead(Apply(c, s, step)) == Ahead(s) && Moves(Apply(c, s, step)) < Moves(s)
  {
    hide Sum, SinkCosts, QueueCosts, EvalCosts, EvalAhead;
    var ws, q := s.sinkWorkers, s.sinkQueue.values;
    if step.SinkPop? {
      SinkCostMoves(ws, step.j, Writing(q[0].task, q[0].results));
      QueueCostFront(q);
    } else if step.SinkWrite? {
      SinkCostMoves(ws, step.j, Writing(ws[step.j].task, ws[step.j].left - 1));
    } else if !step.CloseSink? {
      SinkCostMoves(ws, step.j, if step.SinkExit? then SinkGone else Waiting);
    }
  }

  lemma HandOverCosts(c: Config, s: State, i: nat)
    requires Enabled(c, s, HandOver(i))
    ensures Ahead(Apply(c, s, HandOver(i))) == Ahead(s) && Moves(Apply(c, s, HandOver(i))) < Moves(s)
  {
    hide Sum, SinkCosts, QueueCosts, EvalCosts, EvalAhead;
    var w := s.evalWorkers[i];
    AheadMoves(s.evalWorkers, i, if c.durable then Free else Handed(w.task));
    QueueCostBack(s.sinkQueue.values, SinkTask(w.task, w.results));
    assert EvalAhead(s.evalWorkers)[i] == 0;
  }

  lemma EvalStepCosts(c: Config, s: State, step: Step)
    requires Enabled(c, s, step) && !OnSinkSide(step) && !step.Accept? && !step.HandOver? && !step.CloseEval?
    ensures var s' := Apply(c, s, step);
            Ahead(s') < Ahead(s) || (Ahead(s') == Ahead(s) && Moves(s') < Moves(s))
  {
    hide Sum, SinkCosts, QueueCosts, EvalCosts, EvalAhead;
    var ws := s.evalWorkers;
    var w := if step.EvalPop? then Evaluating(s.evalQueue.values[0])
             else if step.EvalExit? then EvalGone
             else if step.EvalDone? then Evaluated(ws[step.i].task, step.results)
             else Free;
    AheadMoves(ws, step.i, w);
    assert Apply(c, s, step).evalWorkers == ws[step.i := w];
    assert EvalAhead(ws)[step.i] == if ws[step.i].Evaluating? then 1 else 0;
  }

  /** Once the evaluation queue is closed, no schedule goes on for ever. */
  lemma {:induction false} ShutdownEnds(c: Config, run: nat -> State, k: nat)
    requires run(k).evalQueue.closed
    ensures exists n: nat :: n >= k && !Next(c, run(n), run(n + 1))
    decreases Ahead(run(k)), Moves(run(k))
  {
    if Next(c, run(k), run(k + 1)) {
      var step :| Enabled(c, run(k), step) && run(k + 1) == Apply(c, run(k), step);
      StaysClosed(c, run(k), step);
      StepCosts(c, run(k), step);
      hide Next, Apply, Enabled, Ahead, Moves;
      ShutdownEnds(c, run, k + 1);
    }
  }

  lemma StaysClosed(c: Config, s: State, step: Step)
    requires Enabled(c, s, step) && s.evalQueue.closed
    ensures Apply(c, s, step).evalQueue.closed && !step.Accept?
  {
  }
}
