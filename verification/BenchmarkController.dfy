/**
  The controller as it runs: handlers that loop over its sinks, profilers and publishers and update
  them in place. A controller is always the outcome of the events it has been through, so that what is
  proved of runs holds of it.
 */
module BenchmarkControllers {
  import opened Wrappers
  import opened BenchmarkModel
  import opened BenchmarkComponents
  import opened BenchmarkRuns
  import opened BenchmarkResults

  /** Beginning a sink clears it, so that having cleared it before makes no difference. */
  lemma BeginAfterClear(sinks: seq<Sink>)
    ensures Apply(Apply(sinks, ClearSink), BeginSink) == Apply(sinks, BeginSink)
  {
    var a, b := Apply(Apply(sinks, ClearSink), BeginSink), Apply(sinks, BeginSink);
    assert forall i :: 0 <= i < |sinks| ==> a[i] == b[i];
  }

  function EnteredRunning(cfg: Config, s: State, now: int): State {
    s.(phase := Running, timeout := now + cfg.duration, round := s.round + 1)
  }

  /** The start of an iteration in its steps: counting it, beginning all components, and the deadline. */
  lemma StartIs(cfg: Config, s: State, now: int)
    requires s.count < cfg.iterations
    ensures StartIteration(cfg, s, now)
            == if AllInactive(CountIteration(s).profilers)
               then Ok(EnteredRunning(cfg, BeginAll(CountIteration(s)), now)) else Err(ProfilerAlreadyActive)
  {
  }

  class BenchmarkController {
    const cfg: Config
    const sinks: seq<BenchmarkSink>
    const profilers: seq<ResourceProfiler>
    const publishers: seq<BenchmarkPublisher>
    var phase: Phase
    var count: nat
    var trialRunning: bool
    var timeout: int
    var round: nat  // iterations started so far; only labels what is recorded

    /** The state this controller was constructed in, and what has happened since. */
    ghost var start: State
    ghost var events: seq<Event>

    ghost function Snapshot(): State
      reads this, sinks, AllCalculators(sinks), profilers, publishers
    {
      State(phase, count, trialRunning, timeout,
            SinkValues(sinks), ProfilerValues(profilers), PublisherValues(publishers), round)
    }

    ghost predicate Valid()
      reads this, sinks, AllCalculators(sinks), profilers, publishers
    {
      && Separate(sinks) && Distinct(profilers) && Distinct(publishers)
      && Started(start) && Run(cfg, start, events) == Ok(Snapshot())
    }

    /** Changes of the controller's own fields leave the components as they are. */
    twostate lemma ComponentsKept()
      requires unchanged(sinks) && unchanged(AllCalculators(sinks)) && unchanged(profilers) && unchanged(publishers)
      ensures SinkValues(sinks) == old(SinkValues(sinks))
      ensures ProfilerValues(profilers) == old(ProfilerValues(profilers))
      ensures PublisherValues(publishers) == old(PublisherValues(publishers))
    {
    }

    twostate lemma SinksChanged()
      requires unchanged(this) && unchanged(profilers) && unchanged(publishers)
      ensures Snapshot() == old(Snapshot()).(sinks := SinkValues(sinks))
    {
      assert ProfilerValues(profilers) == old(ProfilerValues(profilers));
      assert PublisherValues(publishers) == old(PublisherValues(publishers));
    }

    twostate lemma ProfilersChanged()
      requires unchanged(this) && unchanged(sinks) && unchanged(AllCalculators(sinks)) && unchanged(publishers)
      ensures Snapshot() == old(Snapshot()).(profilers := ProfilerValues(profilers))
    {
      assert SinkValues(sinks) == old(SinkValues(sinks));
      assert PublisherValues(publishers) == old(PublisherValues(publishers));
    }

    twostate lemma PublishersChanged()
      requires unchanged(this) && unchanged(sinks) && unchanged(AllCalculators(sinks)) && unchanged(profilers)
      ensures Snapshot() == old(Snapshot()).(publishers := PublisherValues(publishers))
    {
      assert SinkValues(sinks) == old(SinkValues(sinks));
      assert ProfilerValues(profilers) == old(ProfilerValues(profilers));
    }

    /** An event has just taken the controller from the last state of its run to the present one. */
    ghost method Happened(before: State, e: Event)
      requires Separate(sinks) && Distinct(profilers) && Distinct(publishers) && Started(start)
      requires Run(cfg, start, events) == Ok(before) && Step(cfg, before, e) == Ok(Snapshot())
      modifies this`events
      ensures Valid() && start == old(start) && events == old(events) + [e]
    {
      RunThenStep(cfg, start, events, e);
      events := events + [e];
      ComponentsKept();
    }

    /** `start`, on components none of which records or profiles; their histories may hold anything. */
    constructor (cfg: Config, sinks: seq<BenchmarkSink>, profilers: seq<ResourceProfiler>,
                 publishers: seq<BenchmarkPublisher>)
      requires Separate(sinks) && Distinct(profilers) && Distinct(publishers)
      requires forall i :: 0 <= i < |sinks| ==> !sinks[i].recording
      requires forall p :: 0 <= p < |profilers| ==> !profilers[p].profiling
      modifies publishers
      ensures Valid() && start == Snapshot() && events == []
      ensures this.cfg == cfg && this.sinks == sinks && this.profilers == profilers && this.publishers == publishers
      ensures PublisherValues(publishers) == EnableAll(old(PublisherValues(publishers)), false)
    {
      this.cfg := cfg;
      this.sinks, this.profilers, this.publishers := sinks, profilers, publishers;
      phase, count, trialRunning, timeout, round := Init, 0, false, 0, 0;
      events := [];
      new;
      SetPublishers(false);
      StartsQuiet();
      label Waiting:
      start := Snapshot();
      ComponentsKept@Waiting();
    }

    lemma StartsQuiet()
      requires phase == Init && round == 0
      requires forall i :: 0 <= i < |sinks| ==> !sinks[i].recording
      requires forall p :: 0 <= p < |profilers| ==> !profilers[p].profiling
      requires forall q :: 0 <= q < |publishers| ==> !PublisherValues(publishers)[q].enabled
      ensures Started(Snapshot())
    {
    }

    // -------------------------------------------------------------------------------------------
    // What happens to the components
    // -------------------------------------------------------------------------------------------

    /** `BenchmarkSink::tick`: a message arrives at a sink. */
    method SinkTick(i: nat, time: int, acqtime: int)
      requires Valid() && i < |sinks|
      modifies this`events, sinks[i]
      ensures Valid() && start == old(start) && events == old(events) + [Event.SinkTick(i, time, acqtime)]
    {
      ghost var before := Snapshot();
      sinks[i].Tick(round, time, acqtime);
      SinksChanged();
      assert SinkValues(sinks) == before.sinks[i := ReceiveMessage(before.sinks[i], round, time, acqtime)];
      Happened(before, Event.SinkTick(i, time, acqtime));
    }

    /** `BenchmarkPublisher::tick` on a buffer of so many messages. */
    method PublisherTick(q: nat, buffered: nat, time: int)
      requires Valid() && q < |publishers|
      modifies this`events, publishers[q]
      ensures Valid() && start == old(start) && events == old(events) + [Event.PublisherTick(q, buffered, time)]
    {
      ghost var before := Snapshot();
      publishers[q].Tick(buffered, round, time);
      PublishersChanged();
      assert PublisherValues(publishers)
             == before.publishers[q := PublishMessage(before.publishers[q], buffered, round, time)];
      Happened(before, Event.PublisherTick(q, buffered, time));
    }

    /** The profiling thread of a profiler takes a sample. */
    method ProfilerTick(p: nat, time: int)
      requires Valid() && p < |profilers|
      modifies this`events, profilers[p]
      ensures Valid() && start == old(start) && events == old(events) + [Event.ProfilerTick(p, time)]
    {
      ghost var before := Snapshot();
      profilers[p].Sample(round, time);
      ProfilersChanged();
      assert ProfilerValues(profilers) == before.profilers[p := TakeSample(before.profilers[p], round, time)];
      Happened(before, Event.ProfilerTick(p, time));
    }

    // -------------------------------------------------------------------------------------------
    // The controller's own tick
    // -------------------------------------------------------------------------------------------

    /** One controller tick. It never fails. */
    method Tick(env: Env) returns (r: Result<(), Error>)
      requires Valid()
      modifies this, sinks, AllCalculators(sinks), profilers, publishers
      ensures Valid() && r == Ok(())
      ensures start == old(start) && events == old(events) + [ControllerTick(env)]
    {
      ghost var before := Snapshot();
      RunInv(cfg, start, events);
      TickKeepsInv(cfg, before, env);
      r := HandlePhase(env);
      RefreshTimeout(env.now);
      Happened(before, ControllerTick(env));
    }

    /** A timeout that has passed is brought up to now, so that the controller is ticked again at once. */
    method RefreshTimeout(now: int)
      modifies this`timeout
      ensures Snapshot() == old(Snapshot()).(timeout := if old(timeout) < now then now else old(timeout))
    {
      if timeout < now { timeout := now; }
      ComponentsKept();
    }

    ghost predicate Handled(r: Result<(), Error>, expected: Result<State, Error>)
      reads this, sinks, AllCalculators(sinks), profilers, publishers
    {
      match expected
      case Ok(s) => r == Ok(()) && Snapshot() == s
      case Err(e) => r == Err(e)
    }

    /** The handler of the current phase. */
    method HandlePhase(env: Env) returns (r: Result<(), Error>)
      requires Separate(sinks) && Distinct(profilers) && Distinct(publishers)
      modifies this, sinks, AllCalculators(sinks), profilers, publishers
      ensures Handled(r, Handle(cfg, old(Snapshot()), env))
      ensures start == old(start) && events == old(events)
    {
      r := Ok(());
      match phase {
        case SetUpTestCase => HandleSetUpTestCase();
        case StartRunning => r := HandleStartRunning(env.now);
        case Running => r := HandleRunning(env.now);
        case Summarize => HandleSummarize();
        case _ => HandleQuietPhase(env);
      }
    }

    /** The phases whose handlers touch no sink, profiler or publisher. */
    method HandleQuietPhase(env: Env)
      requires phase != SetUpTestCase && phase != StartRunning && !InIteration(phase)
      modifies this`phase, this`timeout
      ensures Handle(cfg, old(Snapshot()), env) == Ok(Snapshot())
    {
      match phase {
        case Init =>
          if cfg.dependencies { phase := WaitingDependencies; } else { LeaveDependencies(); }
        case WaitingDependencies =>
          if !(cfg.dependencies && !env.dependenciesReady) { LeaveDependencies(); }
        case StartBuffering =>
          timeout := env.now + cfg.bufferingTimeout;
          phase := Buffering;
        case Buffering => HandleBuffering(env);
        case StopBuffering => phase := SetUpTestCase;
        case Conclude => phase := ExportReport;
        case ExportReport => phase := Ending;
        case Ending =>
        case Terminating => phase := Exited;
        case Exited =>
      }
      ComponentsKept();
    }

    method LeaveDependencies()
      modifies this`phase
      ensures phase == AfterDependencies(PublisherValues(publishers))
    {
      phase := if |publishers| == 0 then SetUpTestCase else StartBuffering;
    }

    method HandleBuffering(env: Env)
      requires phase == Buffering
      modifies this`phase
      ensures phase == NextBuffering(cfg, old(Snapshot()), env)
      ensures phase == StopBuffering <==> forall i :: 0 <= i < |env.buffersFull| ==> env.buffersFull[i]
      ensures phase == Buffering <==>
                && (exists i :: 0 <= i < |env.buffersFull| && !env.buffersFull[i])
                && env.now <= timeout && cfg.booleanTerms == 0
                && forall i :: 0 <= i < |env.sourcesDone| ==> env.sourcesDone[i]
      ensures phase == StopBuffering || phase == Buffering || phase == Terminating
    {
      var full := AreAllBuffersFull(env.buffersFull);
      if full {
        phase := StopBuffering;
        return;
      }
      var needToTerminate := env.now > timeout;
      var i := 0;
      while i < |env.sourcesDone|
        invariant 0 <= i <= |env.sourcesDone|
        invariant needToTerminate <==> env.now > timeout || !AllTrue(env.sourcesDone[..i])
      {
        assert env.sourcesDone[..i + 1] == env.sourcesDone[..i] + [env.sourcesDone[i]];
        if !env.sourcesDone[i] { needToTerminate := true; }
        i := i + 1;
      }
      assert env.sourcesDone[..i] == env.sourcesDone;
      i := 0;
      while i < cfg.booleanTerms
        invariant 0 <= i <= cfg.booleanTerms
        invariant needToTerminate <==> env.now > timeout || !AllTrue(env.sourcesDone) || i > 0
      {
        needToTerminate := true;
        i := i + 1;
      }
      if needToTerminate { phase := Terminating; }
    }

    method AreAllBuffersFull(buffersFull: seq<bool>) returns (full: bool)
      ensures full <==> AllTrue(buffersFull)
      ensures full <==> forall i :: 0 <= i < |buffersFull| ==> buffersFull[i]
    {
      var i := 0;
      while i < |buffersFull|
        invariant 0 <= i <= |buffersFull|
        invariant forall k :: 0 <= k < i ==> buffersFull[k]
      {
        if !buffersFull[i] { return false; }
        i := i + 1;
      }
      full := true;
    }

    method HandleSetUpTestCase()
      requires Separate(sinks) && Distinct(profilers)
      modifies this`phase, this`count, this`trialRunning, sinks, AllCalculators(sinks), profilers
      ensures Snapshot() == SetUp(cfg, old(Snapshot()))
    {
      count := 0;
      trialRunning := cfg.trial;
      ComponentsKept();
      ResetResourceProfilers();
      ResetBenchmarkSinks();
      label Done:
      phase := StartRunning;
      ComponentsKept@Done();
    }

    method HandleStartRunning(now: int) returns (r: Result<(), Error>)
      requires Separate(sinks) && Distinct(profilers) && Distinct(publishers) && phase == StartRunning
      modifies this`phase, this`count, this`timeout, this`round, sinks, AllCalculators(sinks), profilers, publishers
      ensures Handled(r, StartIteration(cfg, old(Snapshot()), now))
    {
      if count >= cfg.iterations {
        phase := Conclude;
        ComponentsKept();
        return Ok(());
      }
      CountThisIteration();
      r := BeginNextIteration(now);
      StartIs(cfg, old(Snapshot()), now);
    }

    /** Begins the iteration that has just been counted. */
    method BeginNextIteration(now: int) returns (r: Result<(), Error>)
      requires Distinct(sinks) && Distinct(profilers) && Distinct(publishers)
      modifies this`phase, this`timeout, this`round, sinks, profilers, publishers
      ensures r == if AllInactive(old(Snapshot()).profilers) then Ok(()) else Err(ProfilerAlreadyActive)
      ensures r.Ok? ==> Snapshot() == EnteredRunning(cfg, BeginAll(old(Snapshot())), now)
    {
      r := BeginIteration();
      if r.Err? { return; }
      EnterRunning(now);
    }

    method EnterRunning(now: int)
      modifies this`phase, this`timeout, this`round
      ensures Snapshot() == EnteredRunning(cfg, old(Snapshot()), now)
    {
      timeout := now + cfg.duration;
      round := round + 1;
      phase := Running;
      ComponentsKept();
    }

    method CountThisIteration()
      requires Separate(sinks) && Distinct(profilers)
      modifies this`count, sinks, AllCalculators(sinks), profilers
      ensures Snapshot() == CountIteration(old(Snapshot()))
    {
      if !trialRunning {
        if count == 0 { ResetAllComponents(); }
        label Done:
        count := count + 1;
        ComponentsKept@Done();
      }
    }

    method ResetAllComponents()
      requires Separate(sinks) && Distinct(profilers)
      modifies sinks, AllCalculators(sinks), profilers
      ensures Snapshot() == ResetAll(old(Snapshot()))
    {
      ResetResourceProfilers();
      ResetBenchmarkSinks();
    }

    /** Clears what was recorded before, signals the beginning and lets the publishers tick. */
    method BeginIteration() returns (r: Result<(), Error>)
      requires Distinct(sinks) && Distinct(profilers) && Distinct(publishers)
      modifies sinks, profilers, publishers
      ensures r == if AllInactive(old(Snapshot()).profilers) then Ok(()) else Err(ProfilerAlreadyActive)
      ensures r.Ok? ==> Snapshot() == BeginAll(old(Snapshot()))
    {
      ClearBenchmarkPublishers();
      ClearBenchmarkSinks();
      BeginAfterClear(old(Snapshot()).sinks);
      r := SignalBeginBenchmarking();
      if r.Err? { return; }
      SetPublishers(true);
    }

    method HandleRunning(now: int) returns (r: Result<(), Error>)
      requires Separate(sinks) && Distinct(profilers) && Distinct(publishers) && phase == Running
      modifies this`phase, sinks, profilers, publishers
      ensures Handled(r, RunIteration(old(Snapshot()), now))
    {
      if now < timeout { return Ok(()); }
      r := SignalEndToResourceProfilers();
      if r.Err? { return; }
      SetPublishers(false);
      SignalEndToBenchmarkSinks();
      label Ended:
      phase := Summarize;
      ComponentsKept@Ended();
    }

    method HandleSummarize()
      requires Separate(sinks) && Distinct(profilers) && phase == Summarize
      modifies this`phase, this`trialRunning, AllCalculators(sinks), profilers
      ensures Snapshot() == SummarizeIteration(old(Snapshot()))
    {
      ComputeBenchmarkSinks();
      ComputeResourceProfilers();
      label Computed:
      if trialRunning { trialRunning := false; }
      phase := StartRunning;
      ComponentsKept@Computed();
    }

    // -------------------------------------------------------------------------------------------
    // Loops over the components
    // -------------------------------------------------------------------------------------------

    method ComputeBenchmarkSinks()
      requires Separate(sinks)
      modifies AllCalculators(sinks)
      ensures Snapshot() == old(Snapshot()).(sinks := ComputeSinks(old(Snapshot()).sinks, old(Snapshot()).publishers))
    {
      ghost var pubs := PublisherValues(publishers);
      var i := 0;
      while i < |sinks|
        invariant 0 <= i <= |sinks| && PublisherValues(publishers) == pubs
        invariant forall k :: 0 <= k < i ==> sinks[k].Value() == ComputeSink(old(sinks[k].Value()), pubs)
        invariant forall k :: i <= k < |sinks| ==> sinks[k].Value() == old(sinks[k].Value())
      {
        ComputeBenchmarkSink(sinks[i]);
        i := i + 1;
      }
      SinksChanged();
    }

    /** `BenchmarkSink::compute`: picks the publication times that go with the sink's messages. */
    method ComputeBenchmarkSink(sink: BenchmarkSink)
      requires Distinct(sink.calculators)
      modifies sink.calculators
      ensures sink.Value() == ComputeSink(old(sink.Value()), old(PublisherValues(publishers)))
      ensures PublisherValues(publishers) == old(PublisherValues(publishers))
    {
      var published: seq<Stamp> := [];
      if sink.useAcqtimes {
        published := sink.acqtimes;
      } else if sink.publisher.Some? && sink.publisher.value < |publishers| {
        published := publishers[sink.publisher.value].published;
      }
      assert published == PublishedFor(sink.Value(), PublisherValues(publishers));
      sink.Compute(published);
      assert sink.Value().histories == ComputeSink(old(sink.Value()), old(PublisherValues(publishers))).histories;
    }

    method ComputeResourceProfilers()
      requires Distinct(profilers)
      modifies profilers
      ensures Snapshot() == old(Snapshot()).(profilers := Apply(old(Snapshot()).profilers, ComputeProfiler))
    {
      var p := 0;
      while p < |profilers|
        invariant 0 <= p <= |profilers|
        invariant forall k :: 0 <= k < p ==> profilers[k].Value() == ComputeProfiler(old(profilers[k].Value()))
        invariant forall k :: p <= k < |profilers| ==> profilers[k].Value() == old(profilers[k].Value())
      {
        profilers[p].Compute();
        p := p + 1;
      }
      ProfilersChanged();
    }

    method ResetResourceProfilers()
      requires Distinct(profilers)
      modifies profilers
      ensures Snapshot() == old(Snapshot()).(profilers := Apply(old(Snapshot()).profilers, ResetProfiler))
    {
      var p := 0;
      while p < |profilers|
        invariant 0 <= p <= |profilers|
        invariant forall k :: 0 <= k < p ==> profilers[k].Value() == ResetProfiler(old(profilers[k].Value()))
        invariant forall k :: p <= k < |profilers| ==> profilers[k].Value() == old(profilers[k].Value())
      {
        profilers[p].Reset();
        p := p + 1;
      }
      ProfilersChanged();
    }

    method ResetBenchmarkSinks()
      requires Separate(sinks)
      modifies sinks, AllCalculators(sinks)
      ensures Snapshot() == old(Snapshot()).(sinks := Apply(old(Snapshot()).sinks, ResetSink))
    {
      var i := 0;
      while i < |sinks|
        invariant 0 <= i <= |sinks|
        invariant forall k :: 0 <= k < i ==> sinks[k].Value() == ResetSink(old(sinks[k].Value()))
        invariant forall k :: i <= k < |sinks| ==> sinks[k].Value() == old(sinks[k].Value())
      {
        sinks[i].Reset();
        i := i + 1;
      }
      SinksChanged();
    }

    method ClearBenchmarkSinks()
      requires Distinct(sinks)
      modifies sinks
      ensures Snapshot() == old(Snapshot()).(sinks := Apply(old(Snapshot()).sinks, ClearSink))
    {
      var i := 0;
      while i < |sinks|
        invariant 0 <= i <= |sinks|
        invariant forall k :: 0 <= k < i ==> sinks[k].Value() == ClearSink(old(sinks[k].Value()))
        invariant forall k :: i <= k < |sinks| ==> sinks[k].Value() == old(sinks[k].Value())
      {
        sinks[i].ClearRecordedTimestamps();
        i := i + 1;
      }
      SinksChanged();
    }

    method ClearBenchmarkPublishers()
      requires Distinct(publishers)
      modifies publishers
      ensures Snapshot() == old(Snapshot()).(publishers := Apply(old(Snapshot()).publishers, ClearPublisher))
    {
      var q := 0;
      while q < |publishers|
        invariant 0 <= q <= |publishers|
        invariant forall k :: 0 <= k < q ==> publishers[k].Value() == ClearPublisher(old(publishers[k].Value()))
        invariant forall k :: q <= k < |publishers| ==> publishers[k].Value() == old(publishers[k].Value())
      {
        publishers[q].ClearRecordedTimestamps();
        q := q + 1;
      }
      PublishersChanged();
    }

    /** Lets all publishers tick, or stops them. */
    method SetPublishers(enabled: bool)
      requires Distinct(publishers)
      modifies publishers
      ensures Snapshot() == old(Snapshot()).(publishers := EnableAll(old(Snapshot()).publishers, enabled))
    {
      var q := 0;
      while q < |publishers|
        invariant 0 <= q <= |publishers|
        invariant forall k :: 0 <= k < q ==>
                    publishers[k].Value() == EnablePublisher(old(publishers[k].Value()), enabled)
        invariant forall k :: q <= k < |publishers| ==> publishers[k].Value() == old(publishers[k].Value())
      {
        publishers[q].SetEnabled(enabled);
        q := q + 1;
      }
      PublishersChanged();
    }

    method SignalEndToBenchmarkSinks()
      requires Distinct(sinks)
      modifies sinks
      ensures Snapshot() == old(Snapshot()).(sinks := Apply(old(Snapshot()).sinks, EndSink))
    {
      var i := 0;
      while i < |sinks|
        invariant 0 <= i <= |sinks|
        invariant forall k :: 0 <= k < i ==> sinks[k].Value() == EndSink(old(sinks[k].Value()))
        invariant forall k :: i <= k < |sinks| ==> sinks[k].Value() == old(sinks[k].Value())
      {
        sinks[i].End();
        i := i + 1;
      }
      SinksChanged();
    }

    /** Begins the sinks, then the profilers up to the first that is already active. */
    method SignalBeginBenchmarking() returns (r: Result<(), Error>)
      requires Distinct(sinks) && Distinct(profilers)
      modifies sinks, profilers
      ensures r == if AllInactive(old(Snapshot()).profilers) then Ok(()) else Err(ProfilerAlreadyActive)
      ensures r.Ok? ==> Snapshot() == old(Snapshot()).(sinks := Apply(old(Snapshot()).sinks, BeginSink),
                                                       profilers := Apply(old(Snapshot()).profilers, BeginProfiler))
    {
      SignalBeginToSinks();
      r := SignalBeginToProfilers();
    }

    method SignalBeginToSinks()
      requires Distinct(sinks)
      modifies sinks
      ensures Snapshot() == old(Snapshot()).(sinks := Apply(old(Snapshot()).sinks, BeginSink))
    {
      var i := 0;
      while i < |sinks|
        invariant 0 <= i <= |sinks|
        invariant forall k :: 0 <= k < i ==> sinks[k].Value() == BeginSink(old(sinks[k].Value()))
        invariant forall k :: i <= k < |sinks| ==> sinks[k].Value() == old(sinks[k].Value())
      {
        sinks[i].Begin();
        i := i + 1;
      }
      SinksChanged();
    }

    method SignalBeginToProfilers() returns (r: Result<(), Error>)
      requires Distinct(profilers)
      modifies profilers
      ensures r == if AllInactive(old(Snapshot()).profilers) then Ok(()) else Err(ProfilerAlreadyActive)
      ensures r.Ok? ==> Snapshot() == old(Snapshot()).(profilers := Apply(old(Snapshot()).profilers, BeginProfiler))
    {
      var p := 0;
      while p < |profilers|
        invariant 0 <= p <= |profilers|
        invariant forall k :: 0 <= k < p ==>
                    !old(profilers[k].profiling) && profilers[k].Value() == BeginProfiler(old(profilers[k].Value()))
        invariant forall k :: p <= k < |profilers| ==> profilers[k].Value() == old(profilers[k].Value())
      {
        r := profilers[p].Begin();
        if r.Err? {
          assert old(Snapshot()).profilers[p].profiling == old(profilers[p].profiling);
          return;
        }
        p := p + 1;
      }
      r := Ok(());
      ProfilersChanged();
    }

    method SignalEndToResourceProfilers() returns (r: Result<(), Error>)
      requires Distinct(profilers)
      modifies profilers
      ensures r == if AllActive(old(Snapshot()).profilers) then Ok(()) else Err(ProfilerAlreadyInactive)
      ensures r.Ok? ==> Snapshot() == old(Snapshot()).(profilers := Apply(old(Snapshot()).profilers, EndProfiler))
    {
      var p := 0;
      while p < |profilers|
        invariant 0 <= p <= |profilers|
        invariant forall k :: 0 <= k < p ==>
                    old(profilers[k].profiling) && profilers[k].Value() == EndProfiler(old(profilers[k].Value()))
        invariant forall k :: p <= k < |profilers| ==> profilers[k].Value() == old(profilers[k].Value())
      {
        r := profilers[p].End();
        if r.Err? {
          assert old(Snapshot()).profilers[p].profiling == old(profilers[p].profiling);
          return;
        }
        p := p + 1;
      }
      r := Ok(());
      ProfilersChanged();
    }

    // -------------------------------------------------------------------------------------------
    // What holds of a controller
    // -------------------------------------------------------------------------------------------

    /** Its sinks record and its profilers profile exactly while an iteration runs. */
    lemma RecordsWhileRunning()
      requires Valid()
      ensures forall i :: 0 <= i < |sinks| ==> (sinks[i].recording <==> phase == Running)
      ensures forall p :: 0 <= p < |profilers| ==> (profilers[p].profiling <==> phase == Running)
      ensures forall q :: 0 <= q < |publishers| && publishers[q].enabled ==> phase == Running
    {
      RunInv(cfg, start, events);
      var s := Snapshot();
      forall i | 0 <= i < |sinks| ensures sinks[i].recording <==> phase == Running {
        assert s.sinks[i].recording == sinks[i].recording;
      }
      forall p | 0 <= p < |profilers| ensures profilers[p].profiling <==> phase == Running {
        assert s.profilers[p].profiling == profilers[p].profiling;
      }
      forall q | 0 <= q < |publishers| && publishers[q].enabled ensures phase == Running {
        assert s.publishers[q].enabled;
      }
    }

    /** Once the test case is concluded, what its calculators and profilers hold is what happened to it. */
    lemma HoldsConcludedHistories()
      requires Valid() && phase == Conclude
      ensures var log, first := LogOf(cfg, start, events), 1 + TrialRounds(cfg);
              && count == cfg.iterations && |start.sinks| == |sinks|
              && (forall i, c :: 0 <= i < |sinks| && 0 <= c < |sinks[i].calculators| ==>
                    HistoryExact(log, sinks[i].calculators[c].history, i, start.sinks[i],
                                 Limits(start.publishers), count, first))
              && (forall p :: 0 <= p < |profilers| ==> ProfileExact(log, profilers[p].history, p, count, first))
    {
      ConcludedHistories(cfg, start, events);
      var s, log, first := Snapshot(), LogOf(cfg, start, events), 1 + TrialRounds(cfg);
      forall i, c | 0 <= i < |sinks| && 0 <= c < |sinks[i].calculators|
        ensures HistoryExact(log, sinks[i].calculators[c].history, i, start.sinks[i],
                             Limits(start.publishers), count, first)
      {
        assert s.sinks[i].histories[c] == sinks[i].calculators[c].history;
      }
      forall p | 0 <= p < |profilers| ensures ProfileExact(log, profilers[p].history, p, count, first) {
        assert s.profilers[p].history == profilers[p].history;
      }
    }
  }
}
