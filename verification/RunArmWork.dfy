/**
 What every execution of the measurement protocol has done when it ends: the hedged report
 computed once, all iterations made, everything joined and freed.
 */
module RunArmWork {
  import opened RunArm
  import opened RunArmRuns

  /** At step m the main thread computes the hedged report. */
  ghost predicate ReportsHedged(trace: nat -> State, m: nat) {
    trace(m).main.ProcessHedged? && trace(m + 1).main == JoinProcess(0)
  }

  /** The report sees settled buffers, and every channel's own processing has been started. */
  ghost predicate ReportIsReady(cfg: Config, s: State) {
    && Sized(cfg, s) && Measured(cfg, s)
    && forall c: nat :: c < cfg.channels ==> Settled(cfg, s, c) && !s.process[c].PAbsent?
  }

  lemma ReadyFromInv(cfg: Config, s: State)
    requires Inv(cfg, s) && s.main.ProcessHedged?
    ensures ReportIsReady(cfg, s)
  {
    ProcessingIsLateFromInv(cfg, s);
    forall c: nat | c < cfg.channels
      ensures !s.process[c].PAbsent?
    {
      assert ChannelOk(cfg, s, c);
    }
  }

  /** The main thread never goes back, and reaches the joins only through the hedged report. */
  lemma StagesAdvance(cfg: Config, s: State, who: Thread, t: State)
    requires ControlOk(cfg, s) && Next(cfg, s, who, t)
    ensures Stage(s.main) <= Stage(t.main)
    ensures Stage(s.main) < 10 <= Stage(t.main) ==> s.main.ProcessHedged? && t.main == JoinProcess(0)
  {
    if who == MainThread {
      MainStagesAdvance(cfg, s, t);
    }
  }

  lemma MainStagesAdvance(cfg: Config, s: State, t: State)
    requires ControlOk(cfg, s) && MainStep(cfg, s, t)
    ensures Stage(s.main) <= Stage(t.main)
    ensures Stage(s.main) < 10 <= Stage(t.main) ==> s.main.ProcessHedged? && t.main == JoinProcess(0)
  {
  }

  /** How often the hedged report was computed in the first n steps. */
  ghost function ReportsComputed(trace: nat -> State, n: nat): nat {
    if n == 0 then 0 else ReportsComputed(trace, n - 1) + if ReportsHedged(trace, n - 1) then 1 else 0
  }

  /** Once the main thread is past it, the hedged report has been computed exactly once; before, never. */
  lemma {:induction false} OneHedgedReport(cfg: Config, trace: nat -> State, sched: nat -> Thread, n: nat)
    requires IsExecution(cfg, trace, sched)
    ensures ReportsComputed(trace, n) == if Stage(trace(n).main) >= 10 then 1 else 0
  {
    if n > 0 {
      OneHedgedReport(cfg, trace, sched, n - 1);
      InvAlways(cfg, trace, sched, n - 1);
      assert StepAt(cfg, trace, sched, n - 1);
      StagesAdvance(cfg, trace(n - 1), sched(n - 1), trace(n));
    }
  }

  lemma {:induction false} FindReport(trace: nat -> State, n: nat) returns (m: nat)
    requires ReportsComputed(trace, n) == 1
    ensures m < n && ReportsHedged(trace, m) && forall k: nat :: k < n && ReportsHedged(trace, k) ==> k == m
  {
    if ReportsHedged(trace, n - 1) {
      m := n - 1;
      NoReportBefore(trace, n - 1);
    } else {
      m := FindReport(trace, n - 1);
    }
  }

  lemma {:induction false} NoReportBefore(trace: nat -> State, n: nat)
    requires ReportsComputed(trace, n) == 0
    ensures forall k: nat :: k < n ==> !ReportsHedged(trace, k)
  {
    if n > 0 {
      NoReportBefore(trace, n - 1);
    }
  }

  /** By the end of the arm, the hedged report was computed once, from ready buffers. */
  lemma HedgedReportIsComputed(cfg: Config, trace: nat -> State, sched: nat -> Thread, n: nat) returns (m: nat)
    requires IsExecution(cfg, trace, sched) && trace(n).main.Finished?
    ensures m < n && ReportsHedged(trace, m) && ReportIsReady(cfg, trace(m))
    ensures forall k: nat :: k < n && ReportsHedged(trace, k) ==> k == m
  {
    OneHedgedReport(cfg, trace, sched, n);
    m := FindReport(trace, n);
    InvAlways(cfg, trace, sched, m);
    ReadyFromInv(cfg, trace(m));
  }

  /** At step m thread c makes one iteration, for warm-up or for a sample. */
  ghost predicate Iterates(cfg: Config, trace: nat -> State, c: nat, m: nat) {
    && Sized(cfg, trace(m)) && Sized(cfg, trace(m + 1)) && c < cfg.channels
    && trace(m).measure[c].MSampling? && trace(m + 1).measure[c].MSampling? && trace(m).measure[c] != trace(m + 1).measure[c]
  }

  ghost function IterationsMade(cfg: Config, trace: nat -> State, c: nat, n: nat): nat {
    if n == 0 then 0 else IterationsMade(cfg, trace, c, n - 1) + if Iterates(cfg, trace, c, n - 1) then 1 else 0
  }

  function IterationsClaimed(cfg: Config, p: Measure): nat {
    match p
    case MSampling(j) => j
    case MDone(ok) => if ok then Iterations(cfg) else 0
    case _ => 0
  }

  lemma OneIteration(cfg: Config, s: State, who: Thread, t: State, c: nat)
    requires ControlOk(cfg, s) && c < cfg.channels && MeasureOk(cfg, s, c) && Next(cfg, s, who, t) && Sized(cfg, t)
    requires s.main.SpawnMeasure? && s.main.i < cfg.channels ==> s.measure[s.main.i].MAbsent?
    ensures IterationsClaimed(cfg, t.measure[c]) == IterationsClaimed(cfg, s.measure[c])
      + if s.measure[c].MSampling? && t.measure[c].MSampling? && s.measure[c] != t.measure[c] then 1 else 0
  {
    if who == MainThread {
      MainIteratesNot(cfg, s, t, c);
    }
  }

  lemma MainIteratesNot(cfg: Config, s: State, t: State, c: nat)
    requires ControlOk(cfg, s) && c < cfg.channels && MainStep(cfg, s, t)
    requires s.main.SpawnMeasure? && s.main.i < cfg.channels ==> s.measure[s.main.i].MAbsent?
    ensures Sized(cfg, t) && (t.measure[c] == s.measure[c] || (s.measure[c].MAbsent? && t.measure[c].MPinning?))
  {
  }

  /** A thread that ended well has made exactly the warm-up and sampling iterations, one at a time. */
  lemma {:induction false} EveryIterationIsMade(cfg: Config, trace: nat -> State, sched: nat -> Thread, c: nat, n: nat)
    requires IsExecution(cfg, trace, sched) && c < cfg.channels
    ensures Sized(cfg, trace(n)) && IterationsMade(cfg, trace, c, n) == IterationsClaimed(cfg, trace(n).measure[c])
  {
    InvAlways(cfg, trace, sched, n);
    assert ChannelOk(cfg, trace(n), c);
    if n > 0 {
      EveryIterationIsMade(cfg, trace, sched, c, n - 1);
      InvAlways(cfg, trace, sched, n - 1);
      assert ChannelOk(cfg, trace(n - 1), c);
      assert StepAt(cfg, trace, sched, n - 1);
      NextIsUnspawned(cfg, trace(n - 1));
      OneIteration(cfg, trace(n - 1), sched(n - 1), trace(n), c);
    }
  }

  /** What a finished execution has done: reports computed once and from ready buffers, all iterations made. */
  ghost predicate WorkIsDone(cfg: Config, trace: nat -> State, n: nat) {
    && (exists m: nat :: m < n && ReportsHedged(trace, m) && ReportIsReady(cfg, trace(m)))
    && ReportsComputed(trace, n) == 1
    && Sized(cfg, trace(n)) && forall c: nat :: c < cfg.channels ==>
      IterationsMade(cfg, trace, c, n) == if trace(n).measure[c] == MDone(true) then Iterations(cfg) else 0
  }

  lemma WorkDoneWhenFinished(cfg: Config, trace: nat -> State, sched: nat -> Thread, n: nat)
    requires IsExecution(cfg, trace, sched) && trace(n).main.Finished?
    ensures WorkIsDone(cfg, trace, n)
  {
    OneHedgedReport(cfg, trace, sched, n);
    var m := HedgedReportIsComputed(cfg, trace, sched, n);
    InvAlways(cfg, trace, sched, n);
    MeasuredFromStage(cfg, trace(n));
    forall c: nat | c < cfg.channels
      ensures IterationsMade(cfg, trace, c, n) == if trace(n).measure[c] == MDone(true) then Iterations(cfg) else 0
    {
      EveryIterationIsMade(cfg, trace, sched, c, n);
    }
  }

  /**
   Every fair execution finishes: from some step on every thread has ended, every buffer is
   freed and all the work is done; the signal is still set.
   */
  lemma EveryFairRunFinishes(cfg: Config, trace: nat -> State, sched: nat -> Thread) returns (n: nat)
    requires IsExecution(cfg, trace, sched) && Fair(cfg, sched)
    ensures forall m: nat :: m >= n ==> Sized(cfg, trace(m)) && AllEnded(cfg, trace(m)) && trace(m).signal
    ensures forall m: nat :: m >= n ==> WorkIsDone(cfg, trace, m)
  {
    n := FinishesFrom(cfg, trace, sched, 0);
    forall m: nat | m >= n
      ensures Sized(cfg, trace(m)) && AllEnded(cfg, trace(m)) && trace(m).signal && WorkIsDone(cfg, trace, m)
    {
      EndIsFinal(cfg, trace, sched, n, m);
      InvAlways(cfg, trace, sched, m);
      EndedWhenFinished(cfg, trace(m));
      WorkDoneWhenFinished(cfg, trace, sched, m);
    }
  }
}
