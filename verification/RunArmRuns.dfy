/**
 Safety and progress of the measurement protocol, over every execution.
 */
module RunArmRuns {
  import opened RunArm

  // Executions: an infinite sequence of steps, each by a scheduled thread. A finished or
  // blocked thread's step changes nothing, so a finite run is the start of an infinite one.

  ghost predicate StepAt(cfg: Config, trace: nat -> State, sched: nat -> Thread, n: nat) {
    Next(cfg, trace(n), sched(n), trace(n + 1))
  }

  ghost predicate IsExecutionFrom(cfg: Config, init: State, trace: nat -> State, sched: nat -> Thread) {
    trace(0) == init && forall n: nat :: StepAt(cfg, trace, sched, n)
  }

  /** An execution of an arm that starts with the signal reset. */
  ghost predicate IsExecution(cfg: Config, trace: nat -> State, sched: nat -> Thread) {
    IsExecutionFrom(cfg, Init(cfg), trace, sched)
  }

  ghost predicate RunsAfter(sched: nat -> Thread, who: Thread, n: nat) {
    exists m: nat :: m >= n && sched(m) == who
  }

  /** Every thread is scheduled again and again. */
  ghost predicate Fair(cfg: Config, sched: nat -> Thread) {
    forall who, n: nat :: IsThread(cfg, who) ==> RunsAfter(sched, who, n)
  }

  lemma {:induction false} InvAlways(cfg: Config, trace: nat -> State, sched: nat -> Thread, n: nat)
    requires IsExecution(cfg, trace, sched)
    ensures Inv(cfg, trace(n))
  {
    if n == 0 {
      InitHolds(cfg);
    } else {
      InvAlways(cfg, trace, sched, n - 1);
      assert StepAt(cfg, trace, sched, n - 1);
      StepKeeps(cfg, trace(n - 1), sched(n - 1), trace(n));
    }
  }

  // Safety.

  ghost predicate Measured(cfg: Config, s: State)
    requires Sized(cfg, s)
  {
    && (forall c: nat :: c < cfg.channels ==> s.measure[c].MDone?)
    && (forall i: nat :: i < cfg.stress ==> s.stress[i].SDone?)
  }

  /**
   The buffer is settled: it holds all samples, or, when its thread could not start, none
   but the zeros it was filled with.
   */
  ghost predicate Settled(cfg: Config, s: State, c: nat)
    requires Sized(cfg, s) && c < cfg.channels
  {
    s.measure[c].MDone? && s.buffers[c] == Holding(if s.measure[c].ok then cfg.samples else 0)
  }

  ghost predicate Processed(cfg: Config, s: State)
    requires Sized(cfg, s)
  {
    forall c: nat :: c < cfg.channels ==> s.process[c].PDone?
  }

  /** A thread samples only with all threads started, the signal set and the stress load on: no pinned stress thread has ended. */
  ghost predicate SamplingIsTogether(cfg: Config, s: State)
    requires Sized(cfg, s)
  {
    forall c: nat :: c < cfg.channels && s.measure[c].MSampling? ==>
      && s.signal && s.main.JoinMeasure? && (cfg.stress > 0 ==> s.go && !s.stop)
      && (forall d: nat :: d < cfg.channels ==> !s.measure[d].MAbsent?)
      && (forall i: nat :: i < cfg.stress ==> !s.stress[i].SAbsent? && s.stress[i] != SDone(true))
  }

  /** A sampling thread's next sample goes to the next free place of an allocated buffer. */
  ghost predicate WritesAreInBounds(cfg: Config, s: State)
    requires Sized(cfg, s)
  {
    forall c: nat :: c < cfg.channels && s.measure[c].MSampling? && cfg.warmup <= s.measure[c].done < Iterations(cfg) ==>
      s.buffers[c] == Holding(s.measure[c].done - cfg.warmup) && s.measure[c].done - cfg.warmup < cfg.samples
  }

  /** Buffers are processed only after every measurement and stress thread has ended, and are settled then. */
  ghost predicate ProcessingIsLate(cfg: Config, s: State)
    requires Sized(cfg, s)
  {
    s.main.ProcessHedged? || (exists c: nat :: c < cfg.channels && s.process[c].PRunning?) ==>
      Measured(cfg, s) && forall c: nat :: c < cfg.channels ==> Settled(cfg, s, c)
  }

  /** A buffer is freed only when nobody will look at any buffer again. */
  ghost predicate FreeingIsLast(cfg: Config, s: State)
    requires Sized(cfg, s)
  {
    (exists c: nat :: c < cfg.channels && s.buffers[c].Freed?) ==>
      Measured(cfg, s) && Processed(cfg, s) && (s.main.FreeBuffer? || s.main.Finished?)
  }

  lemma TogetherFromInv(cfg: Config, s: State)
    requires Inv(cfg, s)
    ensures SamplingIsTogether(cfg, s)
  {
    forall c: nat | c < cfg.channels && s.measure[c].MSampling?
      ensures s.signal && s.main.JoinMeasure? && (cfg.stress > 0 ==> s.go && !s.stop)
      ensures forall d: nat :: d < cfg.channels ==> !s.measure[d].MAbsent?
      ensures forall i: nat :: i < cfg.stress ==> !s.stress[i].SAbsent? && s.stress[i] != SDone(true)
    {
      assert ChannelOk(cfg, s, c);
      assert Stage(s.main) == 5;
      forall d: nat | d < cfg.channels ensures !s.measure[d].MAbsent? {
        assert ChannelOk(cfg, s, d);
      }
      forall i: nat | i < cfg.stress ensures !s.stress[i].SAbsent? && s.stress[i] != SDone(true) {
        assert StressOk(cfg, s, i);
      }
    }
  }

  lemma InBoundsFromInv(cfg: Config, s: State)
    requires Inv(cfg, s)
    ensures WritesAreInBounds(cfg, s)
  {
    forall c: nat | c < cfg.channels && s.measure[c].MSampling? && cfg.warmup <= s.measure[c].done < Iterations(cfg)
      ensures s.buffers[c] == Holding(s.measure[c].done - cfg.warmup) && s.measure[c].done - cfg.warmup < cfg.samples
    {
      assert ChannelOk(cfg, s, c);
    }
  }

  lemma MeasuredFromStage(cfg: Config, s: State)
    requires Inv(cfg, s) && Stage(s.main) >= 8
    ensures Measured(cfg, s)
  {
    forall c: nat | c < cfg.channels ensures s.measure[c].MDone? {
      assert ChannelOk(cfg, s, c);
    }
    forall i: nat | i < cfg.stress ensures s.stress[i].SDone? {
      assert StressOk(cfg, s, i);
    }
  }

  lemma ProcessingIsLateFromInv(cfg: Config, s: State)
    requires Inv(cfg, s)
    ensures ProcessingIsLate(cfg, s)
  {
    if s.main.ProcessHedged? || exists c: nat :: c < cfg.channels && s.process[c].PRunning? {
      RunningStage(cfg, s);
      MeasuredFromStage(cfg, s);
      forall c: nat | c < cfg.channels ensures Settled(cfg, s, c) {
        assert ChannelOk(cfg, s, c);
      }
    }
  }

  lemma RunningStage(cfg: Config, s: State)
    requires Inv(cfg, s) && (s.main.ProcessHedged? || exists c: nat :: c < cfg.channels && s.process[c].PRunning?)
    ensures 8 <= Stage(s.main) <= 10
  {
    if c: nat :| c < cfg.channels && s.process[c].PRunning? {
      assert ChannelOk(cfg, s, c);
    }
  }

  lemma FreeingIsLastFromInv(cfg: Config, s: State)
    requires Inv(cfg, s)
    ensures FreeingIsLast(cfg, s)
  {
    if c: nat :| c < cfg.channels && s.buffers[c].Freed? {
      assert ChannelOk(cfg, s, c);
      assert Stage(s.main) >= 11;
      MeasuredFromStage(cfg, s);
      forall d: nat | d < cfg.channels ensures s.process[d].PDone? {
        assert ChannelOk(cfg, s, d);
      }
    }
  }

  /** Safety of every reachable state of an arm that starts with the signal reset. */
  lemma EveryStateIsSafe(cfg: Config, trace: nat -> State, sched: nat -> Thread, n: nat)
    requires IsExecution(cfg, trace, sched)
    ensures Sized(cfg, trace(n))
    ensures SamplingIsTogether(cfg, trace(n)) && WritesAreInBounds(cfg, trace(n))
    ensures ProcessingIsLate(cfg, trace(n)) && FreeingIsLast(cfg, trace(n))
  {
    InvAlways(cfg, trace, sched, n);
    TogetherFromInv(cfg, trace(n));
    InBoundsFromInv(cfg, trace(n));
    ProcessingIsLateFromInv(cfg, trace(n));
    FreeingIsLastFromInv(cfg, trace(n));
  }

  // Progress: a rank that every step lowers unless it changes nothing.

  function MainRank(k: nat, m: nat, main: Main): int {
    match main
    case AllocBuffer(i) => 6 * k + 2 * m + 13 - i
    case SpawnStress(i) => 5 * k + 2 * m + 12 - i
    case SetGo => 5 * k + m + 11
    case SpawnMeasure(i) => 5 * k + m + 10 - i
    case SetSignal => 4 * k + m + 9
    case JoinMeasure(i) => 4 * k + m + 8 - i
    case SetStop => 3 * k + m + 7
    case JoinStress(i) => 3 * k + m + 6 - i
    case SpawnProcess(i) => 3 * k + 5 - i
    case ProcessHedged => 2 * k + 4
    case JoinProcess(i) => 2 * k + 3 - i
    case FreeBuffer(i) => k + 1 - i
    case Finished => 0
  }

  function MeasureRank(cfg: Config, p: Measure): int {
    match p
    case MAbsent => Iterations(cfg) + 4
    case MPinning => Iterations(cfg) + 3
    case MWaiting => Iterations(cfg) + 2
    case MSampling(j) => Iterations(cfg) + 1 - j
    case MDone(_) => 0
  }

  function StressRank(cfg: Config, p: Stress): int {
    match p
    case SAbsent => 4
    case SPinning => 3
    case SWaiting => 2
    case SRunning => 1
    case SDone(_) => 0
  }

  function ProcessRank(cfg: Config, p: Process): int {
    match p
    case PAbsent => 2
    case PRunning => 1
    case PDone => 0
  }

  function Total<T>(cfg: Config, rank: (Config, T) -> int, threads: seq<T>): int {
    if threads == [] then 0 else rank(cfg, threads[0]) + Total(cfg, rank, threads[1..])
  }

  lemma {:induction false} TotalUpdate<T>(cfg: Config, rank: (Config, T) -> int, threads: seq<T>, i: nat, p: T)
    requires i < |threads|
    ensures Total(cfg, rank, threads[i := p]) == Total(cfg, rank, threads) - rank(cfg, threads[i]) + rank(cfg, p)
  {
    if i == 0 {
      assert threads[i := p][1..] == threads[1..];
    } else {
      assert threads[i := p][1..] == threads[1..][i - 1 := p];
      TotalUpdate(cfg, rank, threads[1..], i - 1, p);
    }
  }

  lemma {:induction false} TotalNotNegative<T>(cfg: Config, rank: (Config, T) -> int, threads: seq<T>)
    requires forall i :: 0 <= i < |threads| ==> rank(cfg, threads[i]) >= 0
    ensures Total(cfg, rank, threads) >= 0
  {
    if threads != [] {
      TotalNotNegative(cfg, rank, threads[1..]);
    }
  }

  function Rank(cfg: Config, s: State): int {
    MainRank(cfg.channels, cfg.stress, s.main) + Total(cfg, MeasureRank, s.measure) + Total(cfg, StressRank, s.stress)
    + Total(cfg, ProcessRank, s.process)
  }

  lemma MainRankNotNegative(cfg: Config, m: Main)
    requires MainInBounds(cfg, m)
    ensures MainRank(cfg.channels, cfg.stress, m) >= 0
  {
  }

  lemma RankNotNegative(cfg: Config, s: State)
    requires Inv(cfg, s)
    ensures Rank(cfg, s) >= 0
  {
    MainRankNotNegative(cfg, s.main);
    forall c: nat | c < cfg.channels ensures MeasureRank(cfg, s.measure[c]) >= 0 {
      assert ChannelOk(cfg, s, c);
    }
    TotalNotNegative(cfg, MeasureRank, s.measure);
    TotalNotNegative(cfg, StressRank, s.stress);
    TotalNotNegative(cfg, ProcessRank, s.process);
  }

  lemma SpawnLowersRank(cfg: Config, s: State, t: State)
    requires ControlOk(cfg, s) && MainStep(cfg, s, t) && (s.main.SpawnMeasure? || s.main.SpawnStress? || s.main.SpawnProcess?)
    requires s.main.SpawnMeasure? && s.main.i < cfg.channels ==> s.measure[s.main.i].MAbsent?
    requires s.main.SpawnStress? && s.main.i < cfg.stress ==> s.stress[s.main.i].SAbsent?
    requires s.main.SpawnProcess? && s.main.i < cfg.channels ==> s.process[s.main.i].PAbsent?
    ensures Rank(cfg, t) < Rank(cfg, s)
  {
    var i := s.main.i;
    if s.main.SpawnMeasure? && i < cfg.channels {
      TotalUpdate(cfg, MeasureRank, s.measure, i, MPinning);
    }
    if s.main.SpawnStress? && i < cfg.stress {
      TotalUpdate(cfg, StressRank, s.stress, i, SPinning);
    }
    if s.main.SpawnProcess? && i < cfg.channels {
      TotalUpdate(cfg, ProcessRank, s.process, i, PRunning);
    }
  }

  lemma MainRankFalls(cfg: Config, s: State, t: State)
    requires ControlOk(cfg, s) && MainStep(cfg, s, t)
    ensures t == s || MainRank(cfg.channels, cfg.stress, t.main) < MainRank(cfg.channels, cfg.stress, s.main)
  {
  }

  lemma OthersUntouched(cfg: Config, s: State, t: State)
    requires ControlOk(cfg, s) && MainStep(cfg, s, t) && !s.main.SpawnMeasure? && !s.main.SpawnStress? && !s.main.SpawnProcess?
    ensures t.measure == s.measure && t.stress == s.stress && t.process == s.process
  {
  }

  lemma MeasureLowersRank(cfg: Config, s: State, c: nat, t: State)
    requires Sized(cfg, s) && c < cfg.channels && MeasureStep(cfg, s, c, t)
    requires s.measure[c].MSampling? ==> s.measure[c].done <= Iterations(cfg)
    ensures t == s || Rank(cfg, t) < Rank(cfg, s)
  {
    TotalUpdate(cfg, MeasureRank, s.measure, c, t.measure[c]);
  }

  lemma StressLowersRank(cfg: Config, s: State, i: nat, t: State)
    requires Sized(cfg, s) && i < cfg.stress && StressStep(cfg, s, i, t)
    ensures t == s || Rank(cfg, t) < Rank(cfg, s)
  {
    TotalUpdate(cfg, StressRank, s.stress, i, t.stress[i]);
  }

  lemma ProcessLowersRank(cfg: Config, s: State, c: nat, t: State)
    requires Sized(cfg, s) && c < cfg.channels && ProcessStep(cfg, s, c, t)
    ensures t == s || Rank(cfg, t) < Rank(cfg, s)
  {
    TotalUpdate(cfg, ProcessRank, s.process, c, t.process[c]);
  }

  lemma NextIsUnspawned(cfg: Config, s: State)
    requires Inv(cfg, s)
    ensures s.main.SpawnMeasure? && s.main.i < cfg.channels ==> s.measure[s.main.i].MAbsent?
    ensures s.main.SpawnStress? && s.main.i < cfg.stress ==> s.stress[s.main.i].SAbsent?
    ensures s.main.SpawnProcess? && s.main.i < cfg.channels ==> s.process[s.main.i].PAbsent?
  {
    if (s.main.SpawnMeasure? || s.main.SpawnProcess?) && s.main.i < cfg.channels {
      assert ChannelOk(cfg, s, s.main.i);
    }
    if s.main.SpawnStress? && s.main.i < cfg.stress {
      assert StressOk(cfg, s, s.main.i);
    }
  }

  lemma StepLowersRank(cfg: Config, s: State, who: Thread, t: State)
    requires Inv(cfg, s) && Next(cfg, s, who, t)
    ensures t == s || Rank(cfg, t) < Rank(cfg, s)
  {
    match who
    case MainThread =>
      if s.main.SpawnMeasure? || s.main.SpawnStress? || s.main.SpawnProcess? {
        NextIsUnspawned(cfg, s);
        SpawnLowersRank(cfg, s, t);
      } else {
        MainRankFalls(cfg, s, t);
        OthersUntouched(cfg, s, t);
      }
    case MeasureThread(c) =>
      assert ChannelOk(cfg, s, c);
      MeasureLowersRank(cfg, s, c, t);
    case StressThread(i) => StressLowersRank(cfg, s, i, t);
    case ProcessThread(c) => ProcessLowersRank(cfg, s, c, t);
  }

  /** The thread the main thread waits for, or else the main thread. */
  function Helpful(cfg: Config, s: State): Thread
    requires |s.measure| == |s.process| == cfg.channels && |s.stress| == cfg.stress
  {
    match s.main
    case JoinMeasure(i) => if i < cfg.channels && !s.measure[i].MDone? then MeasureThread(i) else MainThread
    case JoinStress(i) => if i < cfg.stress && !s.stress[i].SDone? then StressThread(i) else MainThread
    case JoinProcess(i) => if i < cfg.channels && !s.process[i].PDone? then ProcessThread(i) else MainThread
    case _ => MainThread
  }

  /** Nothing ever deadlocks: the helpful thread's step always changes the state. */
  lemma HelpfulMoves(cfg: Config, s: State, t: State)
    requires Inv(cfg, s) && !s.main.Finished? && Next(cfg, s, Helpful(cfg, s), t)
    ensures t != s
  {
    match Helpful(cfg, s)
    case MainThread => MainMoves(cfg, s, t);
    case MeasureThread(c) => assert ChannelOk(cfg, s, c);
    case StressThread(i) => assert StressOk(cfg, s, i);
    case ProcessThread(c) => assert ChannelOk(cfg, s, c);
  }

  lemma MainMoves(cfg: Config, s: State, t: State)
    requires ControlOk(cfg, s) && !s.main.Finished? && Helpful(cfg, s) == MainThread && MainStep(cfg, s, t)
    ensures t.main != s.main
  {
  }

  lemma {:induction false} StaysOrFalls(cfg: Config, trace: nat -> State, sched: nat -> Thread, n: nat, m: nat)
    requires IsExecution(cfg, trace, sched) && n <= m
    ensures trace(m) == trace(n) || Rank(cfg, trace(m)) < Rank(cfg, trace(n))
    decreases m - n
  {
    if n < m {
      StaysOrFalls(cfg, trace, sched, n, m - 1);
      InvAlways(cfg, trace, sched, m - 1);
      assert StepAt(cfg, trace, sched, m - 1);
      StepLowersRank(cfg, trace(m - 1), sched(m - 1), trace(m));
    }
  }

  lemma RankFalls(cfg: Config, trace: nat -> State, sched: nat -> Thread, n: nat) returns (m: nat)
    requires IsExecution(cfg, trace, sched) && Fair(cfg, sched) && !trace(n).main.Finished?
    ensures m > n && Rank(cfg, trace(m)) < Rank(cfg, trace(n))
  {
    InvAlways(cfg, trace, sched, n);
    var who := Helpful(cfg, trace(n));
    assert IsThread(cfg, who);
    assert RunsAfter(sched, who, n);
    m :| m >= n && sched(m) == who;
    StaysOrFalls(cfg, trace, sched, n, m);
    if trace(m) == trace(n) {
      assert StepAt(cfg, trace, sched, m);
      HelpfulMoves(cfg, trace(m), trace(m + 1));
      StepLowersRank(cfg, trace(m), who, trace(m + 1));
      m := m + 1;
    }
  }

  lemma {:induction false} FinishesFrom(cfg: Config, trace: nat -> State, sched: nat -> Thread, n: nat) returns (m: nat)
    requires IsExecution(cfg, trace, sched) && Fair(cfg, sched)
    ensures m >= n && trace(m).main.Finished?
    decreases Rank(cfg, trace(n))
  {
    m := n;
    if !trace(n).main.Finished? {
      m := RankFalls(cfg, trace, sched, n);
      InvAlways(cfg, trace, sched, n);
      RankNotNegative(cfg, trace(n));
      m := FinishesFrom(cfg, trace, sched, m);
    }
  }

  ghost predicate AllEnded(cfg: Config, s: State)
    requires Sized(cfg, s)
  {
    s.main.Finished? && Measured(cfg, s) && Processed(cfg, s) && forall c: nat :: c < cfg.channels ==> s.buffers[c].Freed?
  }

  lemma {:induction false} EndIsFinal(cfg: Config, trace: nat -> State, sched: nat -> Thread, n: nat, m: nat)
    requires IsExecution(cfg, trace, sched) && trace(n).main.Finished? && n <= m
    ensures trace(m).main.Finished?
    decreases m - n
  {
    if n < m {
      EndIsFinal(cfg, trace, sched, n, m - 1);
      assert StepAt(cfg, trace, sched, m - 1);
    }
  }

  lemma EndedWhenFinished(cfg: Config, s: State)
    requires Inv(cfg, s) && s.main.Finished?
    ensures AllEnded(cfg, s) && s.signal
  {
    MeasuredFromStage(cfg, s);
    forall c: nat | c < cfg.channels ensures s.process[c].PDone? && s.buffers[c].Freed? {
      assert ChannelOk(cfg, s, c);
    }
  }
}
