/** What a request's status says of what befell it, over all runs of the HTTP pipeline. What befell it is read
    off the steps alone. */
module HttpOutcomes {
  import opened HttpPipeline
  import opened Optional
  import opened Sums

  /** The requests whose evaluation failed, whose results the sink queue refused, whose write failed; how many results
      an evaluation left, and how many were written. */
  datatype History = History(failed: set<Task>, refused: set<Task>, broken: set<Task>, results: map<Task, nat>, writes: map<Task, nat>)

  function After(c: Config, s: State, h: History, step: Step): History
    requires Enabled(c, s, step)
  {
    match step
    case EvalFail(i) => h.(failed := h.failed + {s.evalWorkers[i].task})
    case Refuse(i) => h.(refused := h.refused + {s.evalWorkers[i].task})
    case EvalDone(i, n) => h.(results := h.results[s.evalWorkers[i].task := n], writes := h.writes[s.evalWorkers[i].task := 0])
    case SinkWrite(j) => var t := s.sinkWorkers[j].task; h.(writes := h.writes[t := if t in h.writes then h.writes[t] + 1 else 1])
    case SinkFail(j) => h.(broken := h.broken + {s.sinkWorkers[j].task})
    case _ => h
  }

  /** A run together with the steps that made it. */
  ghost predicate Traced(c: Config, run: seq<State>, steps: seq<Step>) {
    && |run| == |steps| + 1 && Init(run[0])
    && forall k | 0 <= k < |steps| :: Enabled(c, run[k], steps[k]) && run[k + 1] == Apply(c, run[k], steps[k])
  }

  ghost function Story(c: Config, run: seq<State>, steps: seq<Step>, k: nat): History
    requires Traced(c, run, steps) && k <= |steps|
  {
    if k == 0 then History({}, {}, {}, map[], map[]) else After(c, run[k - 1], Story(c, run, steps, k - 1), steps[k - 1])
  }

  /** What a status says: 503 that the sink queue refused the results; 500 that the evaluation failed or, where the sink
      answers, a write; 200 that none of these happened. Where the sink answers, a 200 also means that every result the
      evaluation left was written. */
  ghost predicate StatusSays(c: Config, h: History, t: Task, status: nat) {
    && (status == 503 <==> t in h.refused)
    && (status == 500 <==> t in h.failed || (c.durable && t in h.broken))
    && (status == 200 <==> t !in h.refused && t !in h.failed && !(c.durable && t in h.broken))
    && (status == 200 && c.durable && !c.outputDisabled ==> t in h.results && t in h.writes && h.writes[t] == h.results[t])
  }

  /** The outcomes so far are the ones the story calls for, and nobody whom something befell is without one. */
  ghost predicate Told(c: Config, s: State, h: History) {
    && (forall t | t in s.outcomes :: StatusSays(c, h, t, s.outcomes[t]))
    && h.failed <= s.outcomes.Keys && h.refused <= s.outcomes.Keys
    && (c.durable ==> h.broken <= s.outcomes.Keys)
    && s.needed == h.results && s.written == h.writes
    && (c.outputDisabled ==> NoOutput(s, h))
  }

  /** With output disabled nothing ever reaches the sink side. */
  ghost predicate NoOutput(s: State, h: History) {
    && s.handed == {} && h.broken == {} && h.refused == {}
    && s.sinkQueue.values == [] && forall j | 0 <= j < |s.sinkWorkers| :: !s.sinkWorkers[j].Writing?
  }

  lemma NoOutputStep(c: Config, s: State, h: History, step: Step)
    requires Enabled(c, s, step) && c.outputDisabled && NoOutput(s, h)
    ensures NoOutput(Apply(c, s, step), After(c, s, h, step))
  {
  }

  /** The request a step writes for, or evaluates, is still open where the sink answers. */
  lemma WritesOpen(c: Config, s: State, step: Step, t: Task)
    requires Enabled(c, s, step) && OwedOnce(c, s) && t in s.outcomes
    ensures step.EvalDone? ==> s.evalWorkers[step.i].task != t
    ensures c.durable && step.SinkWrite? ==> s.sinkWorkers[step.j].task != t
  {
    if step.EvalDone? && s.evalWorkers[step.i].task == t { EvalHolds(c, s, step.i, t); }
    if c.durable && step.SinkWrite? && s.sinkWorkers[step.j].task == t { SinkHolds(c, s, step.j, t); }
  }

  /** The request a step answers, fails or refuses has no outcome yet. */
  lemma AnsweredOpen(c: Config, s: State, step: Step)
    requires Enabled(c, s, step) && OwedOnce(c, s) && Completes(c, step)
    ensures Held(s, step).Some? && Held(s, step).value !in s.outcomes
  {
    HolderOwes(c, s, step);
  }

  lemma KeptStatus(c: Config, s: State, h: History, step: Step, t: Task)
    requires Enabled(c, s, step) && OwedOnce(c, s) && Told(c, s, h) && t in s.outcomes
    ensures t in Apply(c, s, step).outcomes && StatusSays(c, After(c, s, h, step), t, Apply(c, s, step).outcomes[t])
  {
    hide OwedOnce;
    OutcomesStay(c, s, step, t);
    WritesOpen(c, s, step, t);
    if Completes(c, step) { AnsweredOpen(c, s, step); }
  }

  lemma NewStatus(c: Config, s: State, h: History, step: Step, t: Task)
    requires Enabled(c, s, step) && OwedOnce(c, s) && WritesAccounted(s) && Acknowledging(c, s) && Told(c, s, h)
    requires t !in s.outcomes && t in Apply(c, s, step).outcomes
    ensures StatusSays(c, After(c, s, h, step), t, Apply(c, s, step).outcomes[t])
  {
    hide OwedOnce, StatusSays;
    OutcomeStep(c, s, step);
    NewStatusOf(c, s, h, step, t);
  }

  lemma NewStatusOf(c: Config, s: State, h: History, step: Step, t: Task)
    requires Enabled(c, s, step) && Completes(c, step) && Held(s, step) == Some(t) && t !in s.outcomes
    requires WritesAccounted(s) && Acknowledging(c, s) && s.needed == h.results && s.written == h.writes
    requires t !in h.failed && t !in h.refused && (c.durable ==> t !in h.broken)
    ensures t in Apply(c, s, step).outcomes
    ensures StatusSays(c, After(c, s, h, step), t, Apply(c, s, step).outcomes[t])
  {
  }

  /** Every step keeps it. */
  lemma ToldStep(c: Config, s: State, h: History, step: Step)
    requires Enabled(c, s, step) && Safe(c, s) && Told(c, s, h)
    ensures Told(c, Apply(c, s, step), After(c, s, h, step))
  {
    var s', h' := Apply(c, s, step), After(c, s, h, step);
    CountsTold(c, s, h, step);
    BefallenAnswered(c, s, h, step);
    if c.outputDisabled { NoOutputStep(c, s, h, step); }
    hide Apply, After, Enabled, OwedOnce, WritesAccounted, Acknowledging, StatusSays, NoOutput;
    forall t | t in s'.outcomes ensures StatusSays(c, h', t, s'.outcomes[t]) {
      if t in s.outcomes { KeptStatus(c, s, h, step, t); } else { NewStatus(c, s, h, step, t); }
    }
  }

  lemma CountsTold(c: Config, s: State, h: History, step: Step)
    requires Enabled(c, s, step) && Told(c, s, h)
    ensures var s', h' := Apply(c, s, step), After(c, s, h, step); s'.needed == h'.results && s'.written == h'.writes
  {
  }

  lemma BefallenAnswered(c: Config, s: State, h: History, step: Step)
    requires Enabled(c, s, step) && Told(c, s, h)
    ensures var s', h' := Apply(c, s, step), After(c, s, h, step);
            h'.failed <= s'.outcomes.Keys && h'.refused <= s'.outcomes.Keys && (c.durable ==> h'.broken <= s'.outcomes.Keys)
  {
    OutcomeStep(c, s, step);
  }

  lemma TracedRuns(c: Config, run: seq<State>, steps: seq<Step>)
    requires Traced(c, run, steps)
    ensures Run(c, run)
  {
    forall k | 0 <= k < |run| - 1 ensures Next(c, run[k], run[k + 1]) {
      assert Enabled(c, run[k], steps[k]) && run[k + 1] == Apply(c, run[k], steps[k]);
    }
  }

  lemma {:induction false} RunTold(c: Config, run: seq<State>, steps: seq<Step>, k: nat)
    requires Traced(c, run, steps) && k <= |steps|
    ensures Told(c, run[k], Story(c, run, steps, k))
  {
    if k != 0 {
      RunTold(c, run, steps, k - 1);
      TracedRuns(c, run, steps);
      RunSafe(c, run, k - 1);
      ToldStep(c, run[k - 1], Story(c, run, steps, k - 1), steps[k - 1]);
    }
  }

  /** After every step of every run, in every mode, each outcome is the one that the steps so far call for, and whoever a
      failed evaluation or a refusal befell has one. */
  lemma RunOutcomes(c: Config, run: seq<State>, steps: seq<Step>, k: nat, t: Task)
    requires Traced(c, run, steps) && k <= |steps|
    ensures var s, h := run[k], Story(c, run, steps, k);
            && (t in s.outcomes ==>
                  && (s.outcomes[t] == 503 <==> t in h.refused)
                  && (s.outcomes[t] == 500 <==> t in h.failed || (c.durable && t in h.broken))
                  && (s.outcomes[t] == 200 <==> t !in h.refused && t !in h.failed && !(c.durable && t in h.broken)))
            && (t in h.failed || t in h.refused || (c.durable && t in h.broken) ==> t in s.outcomes)
            && (c.outputDisabled ==> t !in h.refused && t !in h.broken)
  {
    RunTold(c, run, steps, k);
  }

  /** Where the sink answers, a request gets its 200 only behind as many writes as its evaluation left results. */
  lemma RunWrites(c: Config, run: seq<State>, steps: seq<Step>, k: nat, t: Task)
    requires Traced(c, run, steps) && k <= |steps| && c.durable && !c.outputDisabled
    requires t in run[k].outcomes && run[k].outcomes[t] == 200
    ensures var h := Story(c, run, steps, k); t in h.results && t in h.writes && h.writes[t] == h.results[t]
  {
    RunTold(c, run, steps, k);
  }

  /** When every worker has left, the answer to an accepted request is decided by what befell it. */
  lemma FinishedOutcomes(c: Config, run: seq<State>, steps: seq<Step>, t: Task)
    requires Traced(c, run, steps) && Finished(run[|steps|]) && t in run[|steps|].accepted
    ensures var s, h := run[|steps|], Story(c, run, steps, |steps|);
            && t in s.outcomes
            && s.outcomes[t] == if t in h.refused then 503 else if t in h.failed || (c.durable && t in h.broken) then 500 else 200
  {
    TracedRuns(c, run, steps);
    RunAnswersAll(c, run);
    RunTold(c, run, steps, |steps|);
  }

  // ---- No result gets lost -----------------------------------------------------------------------------------------

  /** Nobody's data disappears: what became of it is a failure, a refusal, or all its results written. */
  ghost predicate Settled(h: History, t: Task) {
    t in h.failed || t in h.refused || t in h.broken || (t in h.results && t in h.writes && h.writes[t] == h.results[t])
  }

  ghost predicate AllSettled(s: State, h: History) {
    forall t | t in s.accepted && Work(s, t) == 0 :: Settled(h, t)
  }

  lemma RetiredSettled(c: Config, s: State, h: History, step: Step, t: Task)
    requires Enabled(c, s, step) && WritesAccounted(s) && !c.outputDisabled && s.needed == h.results && s.written == h.writes
    requires Retires(step) && Held(s, step) == Some(t)
    ensures Settled(After(c, s, h, step), t)
  {
  }

  lemma StaysSettled(c: Config, s: State, h: History, step: Step, t: Task)
    requires Enabled(c, s, step) && Work(s, t) == 0 && Settled(h, t)
    ensures Settled(After(c, s, h, step), t)
  {
    hide Work;
    if step.EvalDone? && s.evalWorkers[step.i].task == t { EvalHolds(c, s, step.i, t); }
    if step.SinkWrite? && s.sinkWorkers[step.j].task == t { SinkHolds(c, s, step.j, t); }
  }

  lemma SettledStep(c: Config, s: State, h: History, step: Step)
    requires Enabled(c, s, step) && WritesAccounted(s) && !c.outputDisabled && s.needed == h.results && s.written == h.writes
    requires AllSettled(s, h)
    ensures AllSettled(Apply(c, s, step), After(c, s, h, step))
  {
    var s' := Apply(c, s, step);
    OutcomeStep(c, s, step);
    hide Apply, Enabled, After, Work, WritesAccounted, Settled;
    forall t | t in s'.accepted && Work(s', t) == 0 ensures Settled(After(c, s, h, step), t) {
      WorkStep(c, s, step, t);
      if Work(s, t) == 0 { StaysSettled(c, s, h, step, t); } else { RetiredSettled(c, s, h, step, t); }
    }
  }

  lemma {:induction false} RunSettled(c: Config, run: seq<State>, steps: seq<Step>, k: nat)
    requires Traced(c, run, steps) && k <= |steps| && !c.outputDisabled
    ensures AllSettled(run[k], Story(c, run, steps, k))
  {
    if k != 0 {
      RunSettled(c, run, steps, k - 1);
      TracedRuns(c, run, steps);
      RunSafe(c, run, k - 1);
      RunTold(c, run, steps, k - 1);
      hide Apply, Enabled, WritesAccounted, AllSettled;
      SettledStep(c, run[k - 1], Story(c, run, steps, k - 1), steps[k - 1]);
    }
  }

  /** When every worker has left, every accepted request's results are all written, also behind an early 200, unless its
      evaluation failed, the sink queue refused them or a write failed. */
  lemma FinishedDelivers(c: Config, run: seq<State>, steps: seq<Step>, t: Task)
    requires Traced(c, run, steps) && Finished(run[|steps|]) && t in run[|steps|].accepted && !c.outputDisabled
    ensures var h := Story(c, run, steps, |steps|);
            t in h.failed || t in h.refused || t in h.broken || (t in h.results && t in h.writes && h.writes[t] == h.results[t])
  {
    var s := run[|steps|];
    TracedRuns(c, run, steps);
    RunSafe(c, run, |steps|);
    RunSettled(c, run, steps, |steps|);
    hide Story, Traced, Apply, Enabled, WritesAccounted;
    NoWorkLeft(s, t);
  }

  lemma NoWorkLeft(s: State, t: Task)
    requires Ordered(s) && Finished(s)
    ensures Work(s, t) == 0
  {
    assert s.evalWorkers[0].EvalGone? && s.sinkWorkers[0].SinkGone?;
    SumNone(EvalLoads(s.evalWorkers, t, true));
    SumNone(SinkLoads(s.sinkWorkers, t));
    SumNone(QueueLoads(s.evalQueue.values, t));
    SumNone(SinkQueueLoads(s.sinkQueue.values, t));
  }

  /** Results are refused exactly when they meet a closed or a full sink queue. */
  lemma RefusedIff(c: Config, s: State, i: nat)
    requires i < |s.evalWorkers| && s.evalWorkers[i].Evaluated? && !c.outputDisabled
    ensures Enabled(c, s, Refuse(i)) <==> s.sinkQueue.closed || |s.sinkQueue.values| >= s.sinkQueue.capacity
    ensures Enabled(c, s, HandOver(i)) <==> !s.sinkQueue.closed && |s.sinkQueue.values| < s.sinkQueue.capacity
  {
  }

  /** Every run has steps that make it. */
  lemma {:induction false} RunIsTraced(c: Config, run: seq<State>) returns (steps: seq<Step>)
    requires Run(c, run)
    ensures Traced(c, run, steps)
  {
    hide Init, Apply, Enabled;
    if |run| == 1 {
      steps := [];
    } else {
      var front := run[..|run| - 1];
      forall k | 0 <= k < |front| - 1 ensures Next(c, front[k], front[k + 1]) { assert Next(c, run[k], run[k + 1]); }
      var before := RunIsTraced(c, front);
      assert Next(c, run[|run| - 2], run[|run| - 2 + 1]);
      steps := LastStep(c, run, before);
    }
  }

  lemma LastStep(c: Config, run: seq<State>, before: seq<Step>) returns (steps: seq<Step>)
    requires |run| >= 2 && Traced(c, run[..|run| - 1], before) && Next(c, run[|run| - 2], run[|run| - 1])
    ensures Traced(c, run, steps)
  {
    hide Init, Apply, Enabled;
    var front := run[..|run| - 1];
    var last :| Enabled(c, run[|run| - 2], last) && run[|run| - 1] == Apply(c, run[|run| - 2], last);
    steps := before + [last];
    forall k | 0 <= k < |steps| ensures Enabled(c, run[k], steps[k]) && run[k + 1] == Apply(c, run[k], steps[k]) {
      if k < |before| { assert run[k] == front[k] && run[k + 1] == front[k + 1] && steps[k] == before[k]; }
    }
  }
}
