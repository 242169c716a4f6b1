/**
 The measurement protocol of Benchmark::run_arm (benchmark/source/benchmark.cpp) as a state
 machine: the main thread, stress threads, measurement threads, processing threads, and
 the three atomic flags between them.
 */
module RunArm {

  /** Channels, stress threads (none: no stress test), warm-up iterations and samples per channel. */
  datatype Config = Config(channels: nat, stress: nat, warmup: nat, samples: nat)

  /** Where the main thread is in run_arm, start_stress_threads and stop_stress_threads. */
  datatype Main =
    | AllocBuffer(i: nat)
    | SpawnStress(i: nat)
    | SetGo
    | SpawnMeasure(i: nat)
    | SetSignal
    | JoinMeasure(i: nat)
    | SetStop
    | JoinStress(i: nat)
    | SpawnProcess(i: nat)
    | ProcessHedged
    | JoinProcess(i: nat)
    | FreeBuffer(i: nat)
    | Finished

  /** measurement_thread; MDone(false) is the early return when pinning fails. */
  datatype Measure = MAbsent | MPinning | MWaiting | MSampling(done: nat) | MDone(ok: bool)

  /** stress_thread; SDone(false) is its early return. */
  datatype Stress = SAbsent | SPinning | SWaiting | SRunning | SDone(ok: bool)

  /** process_thread */
  datatype Process = PAbsent | PRunning | PDone

  /** A sample buffer and how many samples have been written to it. */
  datatype Buffer = Unallocated | Holding(written: nat) | Freed

  datatype State = State(main: Main, measure: seq<Measure>, stress: seq<Stress>, process: seq<Process>, buffers: seq<Buffer>,
                         signal: bool, go: bool, stop: bool)

  datatype Thread = MainThread | MeasureThread(c: nat) | StressThread(i: nat) | ProcessThread(c: nat)

  function Init(cfg: Config): State {
    State(AllocBuffer(0), seq(cfg.channels, _ => MAbsent), seq(cfg.stress, _ => SAbsent), seq(cfg.channels, _ => PAbsent),
          seq(cfg.channels, _ => Unallocated), false, false, false)
  }

  ghost predicate Sized(cfg: Config, s: State) {
    |s.measure| == |s.process| == |s.buffers| == cfg.channels && |s.stress| == cfg.stress
  }

  function Iterations(cfg: Config): nat {
    cfg.warmup + cfg.samples
  }

  // The steps. A thread that is blocked or spins makes a step that changes nothing.

  ghost predicate MainStep(cfg: Config, s: State, t: State)
    requires Sized(cfg, s)
  {
    match s.main
    case AllocBuffer(i) =>
      t == if i < cfg.channels then s.(buffers := s.buffers[i := Holding(0)], main := AllocBuffer(i + 1))
           else s.(main := SpawnStress(0))
    case SpawnStress(i) =>
      t == if cfg.stress == 0 then s.(main := SpawnMeasure(0))
           else if i < cfg.stress then s.(stress := s.stress[i := SPinning], main := SpawnStress(i + 1))
           else s.(main := SetGo)
    case SetGo =>
      t == s.(go := true, main := SpawnMeasure(0))
    case SpawnMeasure(i) =>
      t == if i < cfg.channels then s.(measure := s.measure[i := MPinning], main := SpawnMeasure(i + 1))
           else s.(main := SetSignal)
    case SetSignal =>
      t == s.(signal := true, main := JoinMeasure(0))
    case JoinMeasure(i) =>
      t == if i < cfg.channels then (if s.measure[i].MDone? then s.(main := JoinMeasure(i + 1)) else s)
           else if cfg.stress == 0 then s.(main := SpawnProcess(0))
           else s.(main := SetStop)
    case SetStop =>
      t == s.(stop := true, main := JoinStress(0))
    case JoinStress(i) =>
      t == if i < cfg.stress then (if s.stress[i].SDone? then s.(main := JoinStress(i + 1)) else s)
           else s.(main := SpawnProcess(0))
    case SpawnProcess(i) =>
      t == if i < cfg.channels then s.(process := s.process[i := PRunning], main := SpawnProcess(i + 1))
           else s.(main := ProcessHedged)
    case ProcessHedged =>
      t == s.(main := JoinProcess(0))
    case JoinProcess(i) =>
      t == if i < cfg.channels then (if s.process[i].PDone? then s.(main := JoinProcess(i + 1)) else s)
           else s.(main := FreeBuffer(0))
    case FreeBuffer(i) =>
      t == if i < cfg.channels then s.(buffers := s.buffers[i := Freed], main := FreeBuffer(i + 1))
           else s.(main := Finished)
    case Finished => t == s
  }

  /** One more sample in a buffer. */
  function Written(b: Buffer): Buffer {
    if b.Holding? then Holding(b.written + 1) else b
  }

  ghost predicate MeasureStep(cfg: Config, s: State, c: nat, t: State)
    requires Sized(cfg, s) && c < cfg.channels
  {
    match s.measure[c]
    case MAbsent => t == s
    case MPinning => t == s.(measure := s.measure[c := MWaiting]) || t == s.(measure := s.measure[c := MDone(false)])
    case MWaiting => t == if s.signal then s.(measure := s.measure[c := MSampling(0)]) else s
    case MSampling(j) =>
      if j < cfg.warmup then t == s.(measure := s.measure[c := MSampling(j + 1)])
      else if j < Iterations(cfg) then
        t == s.(measure := s.measure[c := MSampling(j + 1)], buffers := s.buffers[c := Written(s.buffers[c])])
      else t == s.(measure := s.measure[c := MDone(true)])
    case MDone(_) => t == s
  }

  ghost predicate StressStep(cfg: Config, s: State, i: nat, t: State)
    requires Sized(cfg, s) && i < cfg.stress
  {
    match s.stress[i]
    case SAbsent => t == s
    case SPinning => t == s.(stress := s.stress[i := SWaiting]) || t == s.(stress := s.stress[i := SDone(false)])
    case SWaiting => t == if s.go then s.(stress := s.stress[i := SRunning]) else s
    case SRunning => t == if s.stop then s.(stress := s.stress[i := SDone(true)]) else s
    case SDone(_) => t == s
  }

  ghost predicate ProcessStep(cfg: Config, s: State, c: nat, t: State)
    requires Sized(cfg, s) && c < cfg.channels
  {
    t == if s.process[c].PRunning? then s.(process := s.process[c := PDone]) else s
  }

  predicate IsThread(cfg: Config, t: Thread) {
    match t
    case MainThread => true
    case MeasureThread(c) => c < cfg.channels
    case StressThread(i) => i < cfg.stress
    case ProcessThread(c) => c < cfg.channels
  }

  ghost predicate Next(cfg: Config, s: State, who: Thread, t: State) {
    Sized(cfg, s) && IsThread(cfg, who) &&
    match who
    case MainThread => MainStep(cfg, s, t)
    case MeasureThread(c) => MeasureStep(cfg, s, c, t)
    case StressThread(i) => StressStep(cfg, s, i, t)
    case ProcessThread(c) => ProcessStep(cfg, s, c, t)
  }

  // The invariant.

  function Stage(m: Main): nat {
    match m
    case AllocBuffer(_) => 0
    case SpawnStress(_) => 1
    case SetGo => 2
    case SpawnMeasure(_) => 3
    case SetSignal => 4
    case JoinMeasure(_) => 5
    case SetStop => 6
    case JoinStress(_) => 7
    case SpawnProcess(_) => 8
    case ProcessHedged => 9
    case JoinProcess(_) => 10
    case FreeBuffer(_) => 11
    case Finished => 12
  }

  function Index(m: Main): nat {
    match m
    case AllocBuffer(i) => i
    case SpawnStress(i) => i
    case SpawnMeasure(i) => i
    case JoinMeasure(i) => i
    case JoinStress(i) => i
    case SpawnProcess(i) => i
    case JoinProcess(i) => i
    case FreeBuffer(i) => i
    case _ => 0
  }

  /** How many of the n rounds of a stage the main thread has behind it. */
  function Behind(m: Main, stage: nat, n: nat): nat {
    if Stage(m) < stage then 0 else if Stage(m) == stage then Index(m) else n
  }

  ghost predicate MainInBounds(cfg: Config, m: Main) {
    && (Stage(m) in {0, 3, 5, 8, 10, 11} ==> Index(m) <= cfg.channels)
    && (Stage(m) in {1, 7} ==> Index(m) <= cfg.stress)
    && (cfg.stress == 0 ==> Stage(m) !in {2, 6, 7} && (Stage(m) == 1 ==> Index(m) == 0))
  }

  ghost predicate FlagsOk(cfg: Config, s: State) {
    && s.signal == (Stage(s.main) > 4)
    && s.go == (cfg.stress > 0 && Stage(s.main) > 2)
    && s.stop == (cfg.stress > 0 && Stage(s.main) > 6)
  }

  ghost predicate MeasureOk(cfg: Config, s: State, c: nat)
    requires Sized(cfg, s) && c < cfg.channels
  {
    var p := s.measure[c];
    && (p.MAbsent? <==> c >= Behind(s.main, 3, cfg.channels))
    && (c < Behind(s.main, 5, cfg.channels) ==> p.MDone?)
    && (p.MSampling? ==> s.signal && p.done <= Iterations(cfg))
  }

  /** How many samples the thread has written. */
  function SamplesWritten(cfg: Config, p: Measure): nat {
    match p
    case MSampling(j) => if j < cfg.warmup then 0 else j - cfg.warmup
    case MDone(ok) => if ok then cfg.samples else 0
    case _ => 0
  }

  ghost predicate BufferOk(cfg: Config, s: State, c: nat)
    requires Sized(cfg, s) && c < cfg.channels
  {
    var b := s.buffers[c];
    && (b.Unallocated? <==> c >= Behind(s.main, 0, cfg.channels))
    && (b.Freed? <==> c < Behind(s.main, 11, cfg.channels))
    && (b.Holding? ==> b.written == SamplesWritten(cfg, s.measure[c]))
  }

  ghost predicate StressOk(cfg: Config, s: State, i: nat)
    requires Sized(cfg, s) && i < cfg.stress
  {
    && (s.stress[i].SAbsent? <==> i >= Behind(s.main, 1, cfg.stress))
    && (i < Behind(s.main, 7, cfg.stress) ==> s.stress[i].SDone?)
    && (s.stress[i].SRunning? ==> s.go) && (s.stress[i] == SDone(true) ==> s.stop)
  }

  ghost predicate ProcessOk(cfg: Config, s: State, c: nat)
    requires Sized(cfg, s) && c < cfg.channels
  {
    && (s.process[c].PAbsent? <==> c >= Behind(s.main, 8, cfg.channels))
    && (c < Behind(s.main, 10, cfg.channels) ==> s.process[c].PDone?)
  }

  ghost predicate ChannelOk(cfg: Config, s: State, c: nat)
    requires Sized(cfg, s) && c < cfg.channels
  {
    MeasureOk(cfg, s, c) && BufferOk(cfg, s, c) && ProcessOk(cfg, s, c)
  }

  ghost predicate ControlOk(cfg: Config, s: State) {
    Sized(cfg, s) && MainInBounds(cfg, s.main) && FlagsOk(cfg, s)
  }

  ghost predicate Inv(cfg: Config, s: State) {
    && ControlOk(cfg, s)
    && (forall c: nat :: c < cfg.channels ==> ChannelOk(cfg, s, c))
    && (forall i: nat :: i < cfg.stress ==> StressOk(cfg, s, i))
  }

  lemma InitHolds(cfg: Config)
    ensures Inv(cfg, Init(cfg))
  {
  }

  // The main thread up to the signal.

  lemma SetupKeepsControl(cfg: Config, s: State, t: State)
    requires ControlOk(cfg, s) && Stage(s.main) < 5 && MainStep(cfg, s, t)
    ensures ControlOk(cfg, t)
  {
  }

  lemma SetupKeepsChannel(cfg: Config, s: State, t: State, c: nat)
    requires ControlOk(cfg, s) && c < cfg.channels && ChannelOk(cfg, s, c) && Stage(s.main) < 5 && MainStep(cfg, s, t)
    ensures Sized(cfg, t) && ChannelOk(cfg, t, c)
  {
  }

  lemma SetupKeepsStress(cfg: Config, s: State, t: State, i: nat)
    requires ControlOk(cfg, s) && i < cfg.stress && StressOk(cfg, s, i) && Stage(s.main) < 5 && MainStep(cfg, s, t)
    ensures Sized(cfg, t) && StressOk(cfg, t, i)
  {
  }

  // The main thread joining measurement and stress threads.

  lemma CollectKeepsControl(cfg: Config, s: State, t: State)
    requires ControlOk(cfg, s) && 5 <= Stage(s.main) < 8 && MainStep(cfg, s, t)
    ensures ControlOk(cfg, t)
  {
  }

  lemma CollectKeepsChannel(cfg: Config, s: State, t: State, c: nat)
    requires ControlOk(cfg, s) && c < cfg.channels && ChannelOk(cfg, s, c) && 5 <= Stage(s.main) < 8 && MainStep(cfg, s, t)
    ensures Sized(cfg, t) && ChannelOk(cfg, t, c)
  {
  }

  lemma CollectKeepsStress(cfg: Config, s: State, t: State, i: nat)
    requires ControlOk(cfg, s) && i < cfg.stress && StressOk(cfg, s, i) && 5 <= Stage(s.main) < 8 && MainStep(cfg, s, t)
    ensures Sized(cfg, t) && StressOk(cfg, t, i)
  {
  }

  // The main thread from the processing on.

  lemma WrapupKeepsControl(cfg: Config, s: State, t: State)
    requires ControlOk(cfg, s) && Stage(s.main) >= 8 && MainStep(cfg, s, t)
    ensures ControlOk(cfg, t)
  {
  }

  lemma WrapupKeepsBuffer(cfg: Config, s: State, t: State, c: nat)
    requires ControlOk(cfg, s) && c < cfg.channels && ChannelOk(cfg, s, c) && Stage(s.main) >= 8 && MainStep(cfg, s, t)
    ensures Sized(cfg, t) && MeasureOk(cfg, t, c) && BufferOk(cfg, t, c)
  {
  }

  lemma WrapupKeepsProcess(cfg: Config, s: State, t: State, c: nat)
    requires ControlOk(cfg, s) && c < cfg.channels && ProcessOk(cfg, s, c) && Stage(s.main) >= 8 && MainStep(cfg, s, t)
    ensures Sized(cfg, t) && ProcessOk(cfg, t, c)
  {
  }

  lemma WrapupKeepsChannel(cfg: Config, s: State, t: State, c: nat)
    requires ControlOk(cfg, s) && c < cfg.channels && ChannelOk(cfg, s, c) && Stage(s.main) >= 8 && MainStep(cfg, s, t)
    ensures Sized(cfg, t) && ChannelOk(cfg, t, c)
  {
    WrapupKeepsBuffer(cfg, s, t, c);
    WrapupKeepsProcess(cfg, s, t, c);
  }

  lemma WrapupKeepsStress(cfg: Config, s: State, t: State, i: nat)
    requires ControlOk(cfg, s) && i < cfg.stress && StressOk(cfg, s, i) && Stage(s.main) >= 8 && MainStep(cfg, s, t)
    ensures Sized(cfg, t) && StressOk(cfg, t, i)
  {
  }

  // Every other thread.

  lemma WorkerKeepsControl(cfg: Config, s: State, who: Thread, t: State)
    requires ControlOk(cfg, s) && who != MainThread && Next(cfg, s, who, t)
    ensures ControlOk(cfg, t)
  {
  }

  lemma SamplerKeepsChannel(cfg: Config, s: State, d: nat, t: State, c: nat)
    requires ControlOk(cfg, s) && c < cfg.channels && ChannelOk(cfg, s, c) && d < cfg.channels && MeasureStep(cfg, s, d, t)
    ensures Sized(cfg, t) && ChannelOk(cfg, t, c)
  {
  }

  lemma WorkerKeepsChannel(cfg: Config, s: State, who: Thread, t: State, c: nat)
    requires ControlOk(cfg, s) && c < cfg.channels && ChannelOk(cfg, s, c) && who != MainThread && Next(cfg, s, who, t)
    ensures Sized(cfg, t) && ChannelOk(cfg, t, c)
  {
    if who.MeasureThread? {
      SamplerKeepsChannel(cfg, s, who.c, t, c);
    }
  }

  lemma WorkerKeepsStress(cfg: Config, s: State, who: Thread, t: State, i: nat)
    requires ControlOk(cfg, s) && i < cfg.stress && StressOk(cfg, s, i) && who != MainThread && Next(cfg, s, who, t)
    ensures Sized(cfg, t) && StressOk(cfg, t, i)
  {
  }

  lemma StepKeepsControl(cfg: Config, s: State, who: Thread, t: State)
    requires ControlOk(cfg, s) && Next(cfg, s, who, t)
    ensures ControlOk(cfg, t)
  {
    if who != MainThread {
      WorkerKeepsControl(cfg, s, who, t);
    } else if Stage(s.main) < 5 {
      SetupKeepsControl(cfg, s, t);
    } else if Stage(s.main) < 8 {
      CollectKeepsControl(cfg, s, t);
    } else {
      WrapupKeepsControl(cfg, s, t);
    }
  }

  lemma StepKeepsChannel(cfg: Config, s: State, who: Thread, t: State, c: nat)
    requires ControlOk(cfg, s) && c < cfg.channels && ChannelOk(cfg, s, c) && Next(cfg, s, who, t)
    ensures Sized(cfg, t) && ChannelOk(cfg, t, c)
  {
    if who != MainThread {
      WorkerKeepsChannel(cfg, s, who, t, c);
    } else if Stage(s.main) < 5 {
      SetupKeepsChannel(cfg, s, t, c);
    } else if Stage(s.main) < 8 {
      CollectKeepsChannel(cfg, s, t, c);
    } else {
      WrapupKeepsChannel(cfg, s, t, c);
    }
  }

  lemma StepKeepsStress(cfg: Config, s: State, who: Thread, t: State, i: nat)
    requires ControlOk(cfg, s) && i < cfg.stress && StressOk(cfg, s, i) && Next(cfg, s, who, t)
    ensures Sized(cfg, t) && StressOk(cfg, t, i)
  {
    if who != MainThread {
      WorkerKeepsStress(cfg, s, who, t, i);
    } else if Stage(s.main) < 5 {
      SetupKeepsStress(cfg, s, t, i);
    } else if Stage(s.main) < 8 {
      CollectKeepsStress(cfg, s, t, i);
    } else {
      WrapupKeepsStress(cfg, s, t, i);
    }
  }

  /** Every step of every thread keeps the invariant. */
  lemma StepKeeps(cfg: Config, s: State, who: Thread, t: State)
    requires Inv(cfg, s) && Next(cfg, s, who, t)
    ensures Inv(cfg, t)
  {
    StepKeepsControl(cfg, s, who, t);
    forall c: nat | c < cfg.channels
      ensures ChannelOk(cfg, t, c)
    {
      StepKeepsChannel(cfg, s, who, t, c);
    }
    forall i: nat | i < cfg.stress
      ensures StressOk(cfg, t, i)
    {
      StepKeepsStress(cfg, s, who, t, i);
    }
  }
}
