/**
  The value-level model of the benchmark controller and the components it drives: sinks with their
  performance calculators, resource profilers and message publishers. Calls into the runtime succeed;
  the errors that remain are the profilers' own, for being begun twice or ended twice.
 */
module BenchmarkModel {
  import opened Wrappers

  /** A recorded time, labelled with the number of test iterations that had been started when it was recorded. */
  datatype Stamp = Stamp(round: nat, time: int)

  /** What a calculator was given for one test iteration. */
  datatype Entry = Entry(published: seq<Stamp>, received: seq<Stamp>)

  datatype Sink = Sink(
    recording: bool,
    received: seq<Stamp>,
    acqtimes: seq<Stamp>,
    useAcqtimes: bool,
    publisher: Option<nat>,
    histories: seq<seq<Entry>>)

  datatype Profiler = Profiler(profiling: bool, samples: seq<Stamp>, history: seq<seq<Stamp>>)

  datatype Publisher = Publisher(enabled: bool, published: seq<Stamp>, limit: nat)

  datatype Phase =
    | Init | WaitingDependencies | StartBuffering | Buffering | StopBuffering | SetUpTestCase
    | StartRunning | Running | Summarize | Conclude | ExportReport | Ending | Terminating
    | Exited  // the process is gone

  datatype Config = Config(
    iterations: nat,
    trial: bool,
    dependencies: bool,
    booleanTerms: nat,
    bufferingTimeout: nat,
    duration: nat)

  /**
    What a controller tick reads from outside: the clock, whether each publisher's buffer is full, and
    whether each data source's async scheduling term is still in EVENT_DONE.
   */
  datatype Env = Env(now: int, dependenciesReady: bool, buffersFull: seq<bool>, sourcesDone: seq<bool>)

  predicate AllTrue(bs: seq<bool>) { forall i :: 0 <= i < |bs| ==> bs[i] }

  datatype Error = ProfilerAlreadyActive | ProfilerAlreadyInactive

  datatype State = State(
    phase: Phase,
    count: nat,
    trialRunning: bool,
    timeout: int,
    sinks: seq<Sink>,
    profilers: seq<Profiler>,
    publishers: seq<Publisher>,
    round: nat)

  // ---------------------------------------------------------------------------------------------
  // The components
  // ---------------------------------------------------------------------------------------------

  function ClearSink(s: Sink): Sink { s.(received := [], acqtimes := []) }

  function BeginSink(s: Sink): Sink { ClearSink(s).(recording := true) }

  function EndSink(s: Sink): Sink { s.(recording := false) }

  function ResetSink(s: Sink): Sink { ClearSink(s).(histories := seq(|s.histories|, _ => [])) }

  function PublishedFor(s: Sink, publishers: seq<Publisher>): seq<Stamp> {
    if s.useAcqtimes then s.acqtimes
    else if s.publisher.Some? && s.publisher.value < |publishers| then publishers[s.publisher.value].published
    else []
  }

  function ComputeSink(s: Sink, publishers: seq<Publisher>): Sink {
    s.(histories := seq(|s.histories|, c requires 0 <= c < |s.histories| =>
                          s.histories[c] + [Entry(PublishedFor(s, publishers), s.received)]))
  }

  /** A message arriving at a sink. */
  function ReceiveMessage(s: Sink, round: nat, time: int, acqtime: int): Sink {
    if !s.recording then s
    else s.(received := s.received + [Stamp(round, time)],
            acqtimes := if s.useAcqtimes then s.acqtimes + [Stamp(round, acqtime)] else s.acqtimes)
  }

  function BeginProfiler(p: Profiler): Profiler { p.(samples := [], profiling := true) }

  function EndProfiler(p: Profiler): Profiler { p.(profiling := false) }

  function ResetProfiler(p: Profiler): Profiler { p.(samples := [], history := []) }

  function ComputeProfiler(p: Profiler): Profiler { p.(history := p.history + [p.samples]) }

  function TakeSample(p: Profiler, round: nat, time: int): Profiler {
    if p.profiling then p.(samples := p.samples + [Stamp(round, time)]) else p
  }

  function ClearPublisher(p: Publisher): Publisher { p.(published := []) }

  function EnablePublisher(p: Publisher, enabled: bool): Publisher { p.(enabled := enabled) }

  /** One tick of an enabled publisher over a buffer of so many messages. */
  function PublishMessage(p: Publisher, buffered: nat, round: nat, time: int): Publisher {
    if !p.enabled || buffered == 0 then p
    else if p.limit != 0 && |p.published| >= p.limit then p.(enabled := false)
    else p.(published := p.published + [Stamp(round, time)])
  }

  // ---------------------------------------------------------------------------------------------
  // All components of a kind at once
  // ---------------------------------------------------------------------------------------------

  function Apply<T>(xs: seq<T>, f: T -> T): (ys: seq<T>)
    ensures |ys| == |xs| && forall i :: 0 <= i < |xs| ==> ys[i] == f(xs[i])
  {
    seq(|xs|, i requires 0 <= i < |xs| => f(xs[i]))
  }

  predicate AllInactive(profilers: seq<Profiler>) { forall i :: 0 <= i < |profilers| ==> !profilers[i].profiling }

  predicate AllActive(profilers: seq<Profiler>) { forall i :: 0 <= i < |profilers| ==> profilers[i].profiling }

  function ResetAll(s: State): State {
    s.(profilers := Apply(s.profilers, ResetProfiler), sinks := Apply(s.sinks, ResetSink))
  }

  function ComputeSinks(sinks: seq<Sink>, publishers: seq<Publisher>): (r: seq<Sink>)
    ensures |r| == |sinks| && forall i :: 0 <= i < |sinks| ==> r[i] == ComputeSink(sinks[i], publishers)
  {
    seq(|sinks|, i requires 0 <= i < |sinks| => ComputeSink(sinks[i], publishers))
  }

  function EnableAll(publishers: seq<Publisher>, enabled: bool): (r: seq<Publisher>)
    ensures |r| == |publishers| && forall i :: 0 <= i < |r| ==> r[i] == EnablePublisher(publishers[i], enabled)
  {
    seq(|publishers|, i requires 0 <= i < |publishers| => EnablePublisher(publishers[i], enabled))
  }

  // ---------------------------------------------------------------------------------------------
  // The controller
  // ---------------------------------------------------------------------------------------------

  /** Where the controller goes once its dependencies are there. */
  function AfterDependencies(publishers: seq<Publisher>): Phase {
    if |publishers| == 0 then SetUpTestCase else StartBuffering
  }

  /** Any configured boolean term alone makes an unfinished buffering terminate, whatever its value. */
  function NextBuffering(cfg: Config, s: State, env: Env): Phase {
    if AllTrue(env.buffersFull) then StopBuffering
    else if env.now > s.timeout || !AllTrue(env.sourcesDone) || cfg.booleanTerms > 0 then Terminating
    else Buffering
  }

  function SetUp(cfg: Config, s: State): State {
    ResetAll(s.(count := 0, trialRunning := cfg.trial, phase := StartRunning))
  }

  /** A trial iteration is not counted; the first counted one forgets what the trial left. */
  function CountIteration(s: State): State {
    if s.trialRunning then s else (if s.count == 0 then ResetAll(s) else s).(count := s.count + 1)
  }

  /** What was recorded before is cleared, everything begins, and the publishers may tick. */
  function BeginAll(s: State): State {
    s.(sinks := Apply(s.sinks, BeginSink),
       profilers := Apply(s.profilers, BeginProfiler),
       publishers := EnableAll(Apply(s.publishers, ClearPublisher), true))
  }

  function StartIteration(cfg: Config, s: State, now: int): Result<State, Error> {
    if s.count >= cfg.iterations then Ok(s.(phase := Conclude))
    else
      var s1 := CountIteration(s);
      if !AllInactive(s1.profilers) then Err(ProfilerAlreadyActive)
      else Ok(BeginAll(s1).(phase := Running, timeout := now + cfg.duration, round := s1.round + 1))
  }

  function RunIteration(s: State, now: int): Result<State, Error> {
    if now < s.timeout then Ok(s)
    else if !AllActive(s.profilers) then Err(ProfilerAlreadyInactive)
    else
      Ok(s.(phase := Summarize,
            profilers := Apply(s.profilers, EndProfiler),
            publishers := EnableAll(s.publishers, false),
            sinks := Apply(s.sinks, EndSink)))
  }

  function SummarizeIteration(s: State): State {
    s.(phase := StartRunning,
       sinks := ComputeSinks(s.sinks, s.publishers),
       profilers := Apply(s.profilers, ComputeProfiler),
       trialRunning := false)
  }

  function Handle(cfg: Config, s: State, env: Env): Result<State, Error> {
    match s.phase
    case Init => Ok(s.(phase := if cfg.dependencies then WaitingDependencies else AfterDependencies(s.publishers)))
    case WaitingDependencies =>
      if cfg.dependencies && !env.dependenciesReady then Ok(s) else Ok(s.(phase := AfterDependencies(s.publishers)))
    case StartBuffering => Ok(s.(phase := Buffering, timeout := env.now + cfg.bufferingTimeout))
    case Buffering => Ok(s.(phase := NextBuffering(cfg, s, env)))
    case StopBuffering => Ok(s.(phase := SetUpTestCase))
    case SetUpTestCase => Ok(SetUp(cfg, s))
    case StartRunning => StartIteration(cfg, s, env.now)
    case Running => RunIteration(s, env.now)
    case Summarize => Ok(SummarizeIteration(s))
    case Conclude => Ok(s.(phase := ExportReport))
    case ExportReport => Ok(s.(phase := Ending))
    case Ending => Ok(s)
    case Terminating => Ok(s.(phase := Exited))
    case Exited => Ok(s)
  }

  /** One controller tick: the handler of the phase, then an expired timeout is brought up to now. */
  function Tick(cfg: Config, s: State, env: Env): Result<State, Error> {
    match Handle(cfg, s, env)
    case Err(e) => Err(e)
    case Ok(s') => Ok(s'.(timeout := if s'.timeout < env.now then env.now else s'.timeout))
  }

  // ---------------------------------------------------------------------------------------------
  // Runs
  // ---------------------------------------------------------------------------------------------

  /** What may happen between and besides controller ticks. */
  datatype Event =
    | ControllerTick(env: Env)
    | SinkTick(sink: nat, time: int, acqtime: int)
    | PublisherTick(publisher: nat, buffered: nat, time: int)
    | ProfilerTick(profiler: nat, time: int)

  function Step(cfg: Config, s: State, e: Event): Result<State, Error> {
    match e
    case ControllerTick(env) => Tick(cfg, s, env)
    case SinkTick(i, time, acqtime) =>
      Ok(if i < |s.sinks| then s.(sinks := s.sinks[i := ReceiveMessage(s.sinks[i], s.round, time, acqtime)]) else s)
    case PublisherTick(i, buffered, time) =>
      Ok(if i < |s.publishers|
         then s.(publishers := s.publishers[i := PublishMessage(s.publishers[i], buffered, s.round, time)]) else s)
    case ProfilerTick(i, time) =>
      Ok(if i < |s.profilers| then s.(profilers := s.profilers[i := TakeSample(s.profilers[i], s.round, time)]) else s)
  }

  /** `start`: publishers are made to wait. Nothing records or profiles yet; histories may hold anything. */
  ghost predicate Started(s: State) {
    && s.phase == Init && s.round == 0
    && (forall i :: 0 <= i < |s.sinks| ==> !s.sinks[i].recording)
    && AllInactive(s.profilers)
    && (forall i :: 0 <= i < |s.publishers| ==> !s.publishers[i].enabled)
  }

  function Run(cfg: Config, s: State, events: seq<Event>): Result<State, Error> {
    if events == [] then Ok(s)
    else
      match Run(cfg, s, events[..|events| - 1])
      case Err(e) => Err(e)
      case Ok(s') => Step(cfg, s', events[|events| - 1])
  }
}
