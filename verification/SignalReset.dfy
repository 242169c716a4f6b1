/**
 The reset of the measurement signal between two arms (Benchmark::reset,
 benchmark/source/benchmark.cpp): without it the measurement threads do not start together.
 */
module SignalReset {
  import opened RunArm
  import opened RunArmRuns

  /** An arm that starts with the given signal. */
  function InitWith(cfg: Config, signal: bool): State {
    Init(cfg).(signal := signal)
  }

  /** From this state, threads sample together in every state of every execution. */
  ghost predicate AlwaysTogether(cfg: Config, init: State) {
    forall trace: nat -> State, sched: nat -> Thread, n: nat :: IsExecutionFrom(cfg, init, trace, sched) ==>
      Sized(cfg, trace(n)) && SamplingIsTogether(cfg, trace(n))
  }

  // Paths: finite runs, each step by the thread that makes it.

  ghost predicate IsPath(cfg: Config, path: seq<State>, who: seq<Thread>) {
    |path| == |who| + 1 && forall k :: 0 <= k < |who| ==> Next(cfg, path[k], who[k], path[k + 1])
  }

  ghost predicate Leads(cfg: Config, s: State, t: State) {
    exists path, who :: IsPath(cfg, path, who) && path[0] == s && path[|who|] == t
  }

  lemma LeadsToItself(cfg: Config, s: State)
    ensures Leads(cfg, s, s)
  {
    var path: seq<State>, who: seq<Thread> := [s], [];
    assert IsPath(cfg, path, who);
  }

  lemma OneStepMore(cfg: Config, s: State, t: State, who: Thread, u: State)
    requires Leads(cfg, s, t) && Next(cfg, t, who, u)
    ensures Leads(cfg, s, u)
  {
    var path, whos :| IsPath(cfg, path, whos) && path[0] == s && path[|whos|] == t;
    var longer, steps := path + [u], whos + [who];
    forall k | 0 <= k < |steps|
      ensures Next(cfg, longer[k], steps[k], longer[k + 1])
    {
      if k < |whos| {
        assert Next(cfg, path[k], whos[k], path[k + 1]);
      }
    }
    assert IsPath(cfg, longer, steps) && longer[|steps|] == u;
  }

  /** No measurement or processing thread exists yet, and the signal is set. */
  ghost predicate NobodyYet(cfg: Config, s: State) {
    && Sized(cfg, s) && s.signal
    && forall c: nat :: c < cfg.channels ==> s.measure[c].MAbsent? && s.process[c].PAbsent?
  }

  /** The main thread allocates the remaining buffers. */
  lemma {:induction false} BuffersAllocated(cfg: Config, init: State, s: State) returns (t: State)
    requires Leads(cfg, init, s) && NobodyYet(cfg, s) && s.main.AllocBuffer? && s.main.i <= cfg.channels
    ensures Leads(cfg, init, t) && NobodyYet(cfg, t) && t.main == SpawnStress(0)
    decreases cfg.channels - s.main.i
  {
    if s.main.i < cfg.channels {
      var u := s.(buffers := s.buffers[s.main.i := Holding(0)], main := AllocBuffer(s.main.i + 1));
      OneStepMore(cfg, init, s, MainThread, u);
      t := BuffersAllocated(cfg, init, u);
    } else {
      t := s.(main := SpawnStress(0));
      OneStepMore(cfg, init, s, MainThread, t);
    }
  }

  /** It starts the remaining stress threads, if there is a stress load. */
  lemma {:induction false} StressStarted(cfg: Config, init: State, s: State) returns (t: State)
    requires Leads(cfg, init, s) && NobodyYet(cfg, s) && s.main.SpawnStress? && s.main.i <= cfg.stress
    ensures Leads(cfg, init, t) && NobodyYet(cfg, t) && t.main == SpawnMeasure(0)
    decreases cfg.stress - s.main.i
  {
    if cfg.stress == 0 {
      t := s.(main := SpawnMeasure(0));
      OneStepMore(cfg, init, s, MainThread, t);
    } else if s.main.i < cfg.stress {
      var u := s.(stress := s.stress[s.main.i := SPinning], main := SpawnStress(s.main.i + 1));
      OneStepMore(cfg, init, s, MainThread, u);
      t := StressStarted(cfg, init, u);
    } else {
      var u := s.(main := SetGo);
      OneStepMore(cfg, init, s, MainThread, u);
      t := u.(go := true, main := SpawnMeasure(0));
      OneStepMore(cfg, init, u, MainThread, t);
    }
  }

  /** The first measurement thread sees the stale signal at once. */
  lemma FirstSamples(cfg: Config, init: State, s: State) returns (t: State)
    requires Leads(cfg, init, s) && NobodyYet(cfg, s) && s.main == SpawnMeasure(0) && cfg.channels > 0
    ensures Leads(cfg, init, t) && Sized(cfg, t) && t.main == SpawnMeasure(1)
    ensures t.measure[0].MSampling? && t.process[0].PAbsent?
  {
    var u := s.(measure := s.measure[0 := MPinning], main := SpawnMeasure(1));
    OneStepMore(cfg, init, s, MainThread, u);
    var v := u.(measure := u.measure[0 := MWaiting]);
    OneStepMore(cfg, init, u, MeasureThread(0), v);
    t := v.(measure := v.measure[0 := MSampling(0)]);
    OneStepMore(cfg, init, v, MeasureThread(0), t);
  }

  /** Started with the signal still set, a thread can sample before the main thread gives the signal. */
  lemma StaleSignalStartsEarly(cfg: Config) returns (t: State)
    requires cfg.channels > 0
    ensures Leads(cfg, InitWith(cfg, true), t) && Sized(cfg, t) && t.measure[0].MSampling? && t.process[0].PAbsent?
    ensures t.main == SpawnMeasure(1) && !SamplingIsTogether(cfg, t)
  {
    var init := InitWith(cfg, true);
    LeadsToItself(cfg, init);
    t := BuffersAllocated(cfg, init, init);
    t := StressStarted(cfg, init, t);
    t := FirstSamples(cfg, init, t);
  }

  /** A path extends to an execution: from its end on, a thread that does not exist yet is scheduled. */
  lemma PathExtends(cfg: Config, init: State, t: State) returns (trace: nat -> State, sched: nat -> Thread, n: nat)
    requires Leads(cfg, init, t) && cfg.channels > 0 && Sized(cfg, t) && t.process[0].PAbsent?
    ensures IsExecutionFrom(cfg, init, trace, sched) && trace(n) == t
  {
    var path, who :| IsPath(cfg, path, who) && path[0] == init && path[|who|] == t;
    n := |who|;
    trace := (k: nat) => if k < |path| then path[k] else t;
    sched := (k: nat) => if k < |who| then who[k] else ProcessThread(0);
    forall k: nat
      ensures StepAt(cfg, trace, sched, k)
    {
      if k < |who| {
        assert Next(cfg, path[k], who[k], path[k + 1]);
      }
    }
  }

  /** The threads of an arm always sample together if and only if it starts with the signal reset. */
  lemma ResetIsNeeded(cfg: Config, signal: bool)
    requires cfg.channels > 0
    ensures AlwaysTogether(cfg, InitWith(cfg, signal)) <==> !signal
  {
    if signal {
      var t := StaleSignalStartsEarly(cfg);
      var trace, sched, n := PathExtends(cfg, InitWith(cfg, true), t);
      assert !SamplingIsTogether(cfg, trace(n));
    } else {
      assert InitWith(cfg, false) == Init(cfg);
      forall trace: nat -> State, sched: nat -> Thread, n: nat | IsExecutionFrom(cfg, Init(cfg), trace, sched)
        ensures Sized(cfg, trace(n)) && SamplingIsTogether(cfg, trace(n))
      {
        EveryStateIsSafe(cfg, trace, sched, n);
      }
    }
  }
}
