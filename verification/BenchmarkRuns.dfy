/**
  What holds of every run of the benchmark controller, whatever messages, samples and clock readings
  come in between its ticks.
 */
module BenchmarkRuns {
  import opened Wrappers
  import opened BenchmarkModel

  // ---------------------------------------------------------------------------------------------
  // The invariant
  // ---------------------------------------------------------------------------------------------

  function TrialRounds(cfg: Config): nat { if cfg.trial then 1 else 0 }

  predicate BeforeSetUp(p: Phase) {
    p == Init || p == WaitingDependencies || p == StartBuffering || p == Buffering || p == StopBuffering
    || p == SetUpTestCase || p == Terminating || p == Exited
  }

  predicate InIteration(p: Phase) { p == Running || p == Summarize }

  /** The phases, counters and rounds that go together. */
  predicate CountersOk(cfg: Config, s: State) {
    if BeforeSetUp(s.phase) then s.round == 0
    else if s.phase == StartRunning then
      && s.count <= cfg.iterations
      && (if s.trialRunning then cfg.trial && s.count == 0 else cfg.trial ==> cfg.iterations > 0)
      && s.round == s.count + (if s.trialRunning then 0 else TrialRounds(cfg))
    else if InIteration(s.phase) then
      && (if s.trialRunning then cfg.trial && s.count == 0 < cfg.iterations && s.round == 1
          else 0 < s.count <= cfg.iterations && s.round == s.count + TrialRounds(cfg))
    else
      s.count == cfg.iterations && s.round == cfg.iterations + if cfg.iterations > 0 then TrialRounds(cfg) else 0
  }

  /** Sinks record and profilers profile exactly while an iteration runs; publishers are enabled only then. */
  predicate FlagsOk(s: State) {
    && (forall i :: 0 <= i < |s.sinks| ==> (s.sinks[i].recording <==> s.phase == Running))
    && (forall i :: 0 <= i < |s.profilers| ==> (s.profilers[i].profiling <==> s.phase == Running))
    && (forall i :: 0 <= i < |s.publishers| && s.publishers[i].enabled ==> s.phase == Running)
  }

  predicate Inv(cfg: Config, s: State) { CountersOk(cfg, s) && FlagsOk(s) }

  // ---------------------------------------------------------------------------------------------
  // Every step keeps it, and no step fails
  // ---------------------------------------------------------------------------------------------

  lemma StartKeepsInv(cfg: Config, s: State, now: int)
    requires Inv(cfg, s) && s.phase == StartRunning
    ensures StartIteration(cfg, s, now).Ok? && Inv(cfg, StartIteration(cfg, s, now).value)
  {
    if s.count < cfg.iterations {
      assert AllInactive(CountIteration(s).profilers);
    }
  }

  lemma RunKeepsInv(cfg: Config, s: State, now: int)
    requires Inv(cfg, s) && s.phase == Running
    ensures RunIteration(s, now).Ok? && Inv(cfg, RunIteration(s, now).value)
  {
    assert AllActive(s.profilers);
  }

  lemma SetUpKeepsInv(cfg: Config, s: State)
    requires Inv(cfg, s) && s.phase == SetUpTestCase
    ensures Inv(cfg, SetUp(cfg, s))
  {
  }

  lemma SummarizeKeepsInv(cfg: Config, s: State)
    requires Inv(cfg, s) && s.phase == Summarize
    ensures Inv(cfg, SummarizeIteration(s))
  {
  }

  /** The phases that touch no component: before the set-up, and after the conclusion. */
  lemma QuietKeepsInv(cfg: Config, s: State, env: Env)
    requires Inv(cfg, s)
    requires s.phase != SetUpTestCase && s.phase != StartRunning && !InIteration(s.phase)
    ensures Handle(cfg, s, env).Ok? && Inv(cfg, Handle(cfg, s, env).value)
  {
  }

  lemma HandleKeepsInv(cfg: Config, s: State, env: Env)
    requires Inv(cfg, s)
    ensures Handle(cfg, s, env).Ok? && Inv(cfg, Handle(cfg, s, env).value)
  {
    if s.phase == SetUpTestCase {
      SetUpKeepsInv(cfg, s);
    } else if s.phase == StartRunning {
      StartKeepsInv(cfg, s, env.now);
    } else if s.phase == Running {
      RunKeepsInv(cfg, s, env.now);
    } else if s.phase == Summarize {
      SummarizeKeepsInv(cfg, s);
    } else {
      QuietKeepsInv(cfg, s, env);
    }
  }

  lemma TickKeepsInv(cfg: Config, s: State, env: Env)
    requires Inv(cfg, s)
    ensures Tick(cfg, s, env).Ok? && Inv(cfg, Tick(cfg, s, env).value)
  {
    HandleKeepsInv(cfg, s, env);
  }

  lemma ComponentTickKeepsInv(cfg: Config, s: State, e: Event)
    requires Inv(cfg, s) && !e.ControllerTick?
    ensures Step(cfg, s, e).Ok? && Inv(cfg, Step(cfg, s, e).value)
  {
  }

  lemma StepKeepsInv(cfg: Config, s: State, e: Event)
    requires Inv(cfg, s)
    ensures Step(cfg, s, e).Ok? && Inv(cfg, Step(cfg, s, e).value)
  {
    if e.ControllerTick? { TickKeepsInv(cfg, s, e.env); } else { ComponentTickKeepsInv(cfg, s, e); }
  }

  /** No run fails: in particular no profiler is ever begun while active or ended while inactive. */
  lemma {:induction false} RunInv(cfg: Config, s: State, events: seq<Event>)
    requires Started(s)
    ensures Run(cfg, s, events).Ok? && Inv(cfg, Run(cfg, s, events).value)
  {
    if events != [] {
      RunInv(cfg, s, events[..|events| - 1]);
      StepKeepsInv(cfg, Run(cfg, s, events[..|events| - 1]).value, events[|events| - 1]);
    }
  }

  // ---------------------------------------------------------------------------------------------
  // What a run delivers
  // ---------------------------------------------------------------------------------------------

  /** Sinks record and profilers profile exactly while an iteration runs, and publishers are enabled only then. */
  lemma {:induction false} RecordingOnlyWhileRunning(cfg: Config, s0: State, events: seq<Event>)
    requires Started(s0)
    ensures Run(cfg, s0, events).Ok?
    ensures var s := Run(cfg, s0, events).value;
            && (forall i :: 0 <= i < |s.sinks| ==> (s.sinks[i].recording <==> s.phase == Running))
            && (forall i :: 0 <= i < |s.profilers| ==> (s.profilers[i].profiling <==> s.phase == Running))
            && (forall i :: 0 <= i < |s.publishers| && s.publishers[i].enabled ==> s.phase == Running)
  {
    RunInv(cfg, s0, events);
  }

  /** As many iterations are started as configured, and one more for a trial unless there are none. */
  lemma RoundsAtConclusion(cfg: Config, s0: State, events: seq<Event>)
    requires Started(s0) && Run(cfg, s0, events).Ok? && Run(cfg, s0, events).value.phase == Conclude
    ensures Run(cfg, s0, events).value.round == cfg.iterations + if cfg.trial && cfg.iterations > 0 then 1 else 0
  {
    RunInv(cfg, s0, events);
  }

  // ---------------------------------------------------------------------------------------------
  // How long a run takes
  // ---------------------------------------------------------------------------------------------

  predicate MayWait(p: Phase) {
    p == WaitingDependencies || p == Buffering || p == Running || p == Ending || p == Exited
  }

  /** Rounds from a set-up test case to its conclusion. */
  function Rounds(cfg: Config): nat { cfg.iterations + if cfg.iterations > 0 then TrialRounds(cfg) else 0 }

  /** The controller ticks still to be made, not counting those that wait. */
  function TicksLeft(cfg: Config, s: State): nat
    requires CountersOk(cfg, s)
  {
    var setUp := 4 + 3 * Rounds(cfg);
    match s.phase
    case Init => setUp + 5
    case WaitingDependencies => setUp + 4
    case StartBuffering => setUp + 3
    case Buffering => setUp + 2
    case StopBuffering => setUp + 1
    case SetUpTestCase => setUp
    case StartRunning => 3 + 3 * (Rounds(cfg) - s.round)
    case Running => 5 + 3 * (Rounds(cfg) - s.round)
    case Summarize => 4 + 3 * (Rounds(cfg) - s.round)
    case Conclude => 2
    case ExportReport => 1
    case Ending => 0
    case Terminating => 1
    case Exited => 0
  }

  /**
    Every controller tick either waits, in one of the phases that may, or brings the run closer to its
    end. From the set-up on it does so by exactly one, so that the remaining ticks are known in advance.
   */
  lemma {:induction false} TickCountsDown(cfg: Config, s: State, env: Env)
    requires Inv(cfg, s)
    ensures Tick(cfg, s, env).Ok? && CountersOk(cfg, Tick(cfg, s, env).value)
    ensures CountsDown(cfg, s, Tick(cfg, s, env).value)
  {
    TickKeepsInv(cfg, s, env);
    CountersCountDown(cfg, s, Tick(cfg, s, env).value, env);
  }

  /** What a controller tick leaves to do, by the phase it is in. */
  predicate CountsDown(cfg: Config, s: State, after: State)
    requires CountersOk(cfg, s) && CountersOk(cfg, after)
  {
    if after.phase == s.phase then MayWait(s.phase) && TicksLeft(cfg, after) == TicksLeft(cfg, s)
    else
      && TicksLeft(cfg, after) < TicksLeft(cfg, s)
      && (s.phase == SetUpTestCase || !BeforeSetUp(s.phase) ==> TicksLeft(cfg, after) == TicksLeft(cfg, s) - 1)
  }

  lemma StartCountsDown(cfg: Config, s: State, after: State, env: Env)
    requires CountersOk(cfg, s) && CountersOk(cfg, after) && s.phase == StartRunning && Tick(cfg, s, env) == Ok(after)
    ensures CountsDown(cfg, s, after)
  {
    if s.count < cfg.iterations {
      assert after.phase == Running && after.round == s.round + 1;
    } else {
      assert after.phase == Conclude && after.round == s.round;
    }
  }

  lemma IterationCountsDown(cfg: Config, s: State, after: State, env: Env)
    requires CountersOk(cfg, s) && CountersOk(cfg, after) && InIteration(s.phase) && Tick(cfg, s, env) == Ok(after)
    ensures CountsDown(cfg, s, after)
  {
    assert after.round == s.round;
  }

  lemma OtherCountsDown(cfg: Config, s: State, after: State, env: Env)
    requires CountersOk(cfg, s) && CountersOk(cfg, after) && Tick(cfg, s, env) == Ok(after)
    requires s.phase != StartRunning && !InIteration(s.phase)
    ensures CountsDown(cfg, s, after)
  {
    assert after.round == s.round;
  }

  lemma CountersCountDown(cfg: Config, s: State, after: State, env: Env)
    requires CountersOk(cfg, s) && CountersOk(cfg, after) && Tick(cfg, s, env) == Ok(after)
    ensures CountsDown(cfg, s, after)
  {
    if s.phase == StartRunning {
      StartCountsDown(cfg, s, after, env);
    } else if InIteration(s.phase) {
      IterationCountsDown(cfg, s, after, env);
    } else {
      OtherCountsDown(cfg, s, after, env);
    }
  }

  lemma ComponentCountsDown(cfg: Config, s: State, e: Event)
    requires CountersOk(cfg, s) && !e.ControllerTick?
    ensures Step(cfg, s, e).Ok? && CountersOk(cfg, Step(cfg, s, e).value)
    ensures TicksLeft(cfg, Step(cfg, s, e).value) == TicksLeft(cfg, s) && PhaseChange(cfg, s, e) == 0
  {
    var after := Step(cfg, s, e).value;
    assert after.phase == s.phase && after.round == s.round && after.count == s.count;
  }

  lemma StepCountsDown(cfg: Config, s: State, e: Event)
    requires Inv(cfg, s)
    ensures Step(cfg, s, e).Ok? && CountersOk(cfg, Step(cfg, s, e).value)
    ensures TicksLeft(cfg, Step(cfg, s, e).value) + PhaseChange(cfg, s, e) <= TicksLeft(cfg, s)
  {
    if e.ControllerTick? { TickCountsDown(cfg, s, e.env); } else { ComponentCountsDown(cfg, s, e); }
  }

  function PhaseChange(cfg: Config, s: State, e: Event): nat {
    if Step(cfg, s, e).Ok? && Step(cfg, s, e).value.phase != s.phase then 1 else 0
  }

  /** How often a run changed phase. */
  function PhaseChanges(cfg: Config, s: State, events: seq<Event>): nat {
    if events == [] then 0
    else
      var before := events[..|events| - 1];
      PhaseChanges(cfg, s, before)
      + match Run(cfg, s, before) case Ok(s') => PhaseChange(cfg, s', events[|events| - 1]) case Err(_) => 0
  }

  /** No run changes phase more often than the configuration asks for. */
  lemma {:induction false} PhaseChangesBounded(cfg: Config, s: State, events: seq<Event>)
    requires Started(s)
    ensures Run(cfg, s, events).Ok? && CountersOk(cfg, Run(cfg, s, events).value)
    ensures PhaseChanges(cfg, s, events) + TicksLeft(cfg, Run(cfg, s, events).value) <= 9 + 3 * Rounds(cfg)
  {
    RunInv(cfg, s, events);
    if events != [] {
      var before := events[..|events| - 1];
      PhaseChangesBounded(cfg, s, before);
      RunInv(cfg, s, before);
      StepCountsDown(cfg, Run(cfg, s, before).value, events[|events| - 1]);
    }
  }

  // ---------------------------------------------------------------------------------------------
  // Buffering
  // ---------------------------------------------------------------------------------------------

  /** Buffering may be continued after a tick exactly if no boolean term is configured. */
  lemma BufferingMayContinue(cfg: Config, s: State)
    requires s.phase == Buffering
    ensures (exists env :: Tick(cfg, s, env).Ok? && Tick(cfg, s, env).value.phase == Buffering)
            <==> cfg.booleanTerms == 0
  {
    if cfg.booleanTerms == 0 {
      var env := Env(s.timeout, true, [false], []);
      assert !env.buffersFull[0];
      assert Tick(cfg, s, env).value.phase == Buffering;
    }
  }

  predicate HandlesBuffering(cfg: Config, s: State, events: seq<Event>)
    requires events != []
  {
    && events[|events| - 1].ControllerTick?
    && Run(cfg, s, events[..|events| - 1]).Ok? && Run(cfg, s, events[..|events| - 1]).value.phase == Buffering
  }

  /** The number of controller ticks of a run that were handled in the buffering phase. */
  function BufferingTicks(cfg: Config, s: State, events: seq<Event>): nat {
    if events == [] then 0
    else BufferingTicks(cfg, s, events[..|events| - 1]) + if HandlesBuffering(cfg, s, events) then 1 else 0
  }

  predicate UpToBuffering(p: Phase) {
    p == Init || p == WaitingDependencies || p == StartBuffering || p == Buffering
  }

  predicate GivenUp(p: Phase) { p == Terminating || p == Exited }

  /** Past buffering, whether the process has been given up is decided for good. */
  predicate Decided(p: Phase, after: Phase) {
    !UpToBuffering(p) ==> !UpToBuffering(after) && (GivenUp(after) <==> GivenUp(p))
  }

  lemma TickDecides(cfg: Config, s: State, env: Env)
    requires Tick(cfg, s, env).Ok?
    ensures Decided(s.phase, Tick(cfg, s, env).value.phase)
    ensures s.phase == Buffering && cfg.booleanTerms > 0 ==>
              Tick(cfg, s, env).value.phase == if AllTrue(env.buffersFull) then StopBuffering else Terminating
  {
    assert Tick(cfg, s, env).value.phase == Handle(cfg, s, env).value.phase;
  }

  /** Where a step leads from the phases up to buffering, and from the others. */
  lemma StepDecides(cfg: Config, s: State, e: Event)
    requires Step(cfg, s, e).Ok?
    ensures Decided(s.phase, Step(cfg, s, e).value.phase)
    ensures !e.ControllerTick? ==> Step(cfg, s, e).value.phase == s.phase
    ensures e.ControllerTick? && s.phase == Buffering && cfg.booleanTerms > 0 ==>
              !UpToBuffering(Step(cfg, s, e).value.phase)
              && (GivenUp(Step(cfg, s, e).value.phase) <==> !AllTrue(e.env.buffersFull))
  {
    if e.ControllerTick? { TickDecides(cfg, s, e.env); }
  }

  lemma {:induction false} OneBufferingTick(cfg: Config, s0: State, events: seq<Event>)
    requires Started(s0) && cfg.booleanTerms > 0
    ensures Run(cfg, s0, events).Ok?
    ensures BufferingTicks(cfg, s0, events) <= if UpToBuffering(Run(cfg, s0, events).value.phase) then 0 else 1
  {
    assert Run(cfg, s0, events).Ok? by { RunInv(cfg, s0, events); }
    if events != [] {
      var before, last := events[..|events| - 1], events[|events| - 1];
      OneBufferingTick(cfg, s0, before);
      StepDecides(cfg, Run(cfg, s0, before).value, last);
    }
  }

  /** All dependencies are ready, and a buffer is not full. */
  const UNFILLED := Env(0, true, [false], [])

  /** The same reading over and over. */
  function Unfilled(n: nat): (events: seq<Event>)
    ensures |events| == n
  {
    seq(n, _ => ControllerTick(UNFILLED))
  }

  lemma UnfilledStep(cfg: Config, s: State, n: nat)
    requires Run(cfg, s, Unfilled(n)).Ok?
    ensures Run(cfg, s, Unfilled(n + 1)) == Tick(cfg, Run(cfg, s, Unfilled(n)).value, UNFILLED)
    ensures BufferingTicks(cfg, s, Unfilled(n + 1))
            == BufferingTicks(cfg, s, Unfilled(n)) + if Run(cfg, s, Unfilled(n)).value.phase == Buffering then 1 else 0
  {
    assert Unfilled(n + 1)[..n] == Unfilled(n);
    assert Unfilled(n + 1)[n] == ControllerTick(UNFILLED);
  }

  /** The run has got to buffering, and has handled it `k` times without leaving it. */
  predicate BufferedFor(cfg: Config, s: State, events: seq<Event>, k: nat) {
    && BufferingTicks(cfg, s, events) == k
    && Run(cfg, s, events).Ok? && Run(cfg, s, events).value.phase == Buffering && Run(cfg, s, events).value.timeout >= 0
  }

  lemma StillBuffering(cfg: Config, s: State)
    requires cfg.booleanTerms == 0 && s.phase == Buffering && s.timeout >= 0
    ensures var r := Tick(cfg, s, UNFILLED); r.Ok? && r.value.phase == Buffering && r.value.timeout >= 0
  {
    assert !UNFILLED.buffersFull[0];
  }

  /** Without boolean terms such a run may buffer for as long as it likes. */
  lemma {:induction false} BufferingGoesOn(cfg: Config, s0: State, k: nat)
    requires Started(s0) && |s0.publishers| > 0 && cfg.booleanTerms == 0
    ensures BufferedFor(cfg, s0, Unfilled((if cfg.dependencies then 3 else 2) + k), k)
  {
    var first := if cfg.dependencies then 3 else 2;
    if k == 0 {
      BufferingBegins(cfg, s0);
    } else {
      BufferingGoesOn(cfg, s0, k - 1);
      UnfilledStep(cfg, s0, first + k - 1);
      StillBuffering(cfg, Run(cfg, s0, Unfilled(first + k - 1)).value);
    }
  }

  lemma UnfilledTick(cfg: Config, s: State)
    requires |s.publishers| > 0
    requires s.phase == Init || s.phase == WaitingDependencies || s.phase == StartBuffering
    ensures var r := Tick(cfg, s, UNFILLED);
            && r.Ok? && r.value.publishers == s.publishers && r.value.timeout >= 0
            && r.value.phase == if s.phase == StartBuffering then Buffering
                                else if s.phase == Init && cfg.dependencies then WaitingDependencies
                                else StartBuffering
  {
  }

  lemma BufferingBegins(cfg: Config, s0: State)
    requires Started(s0) && |s0.publishers| > 0
    ensures BufferedFor(cfg, s0, Unfilled(if cfg.dependencies then 3 else 2), 0)
  {
    assert Run(cfg, s0, Unfilled(0)) == Ok(s0);
    UnfilledStep(cfg, s0, 0);
    UnfilledTick(cfg, s0);
    UnfilledStep(cfg, s0, 1);
    UnfilledTick(cfg, Run(cfg, s0, Unfilled(1)).value);
    if cfg.dependencies {
      UnfilledStep(cfg, s0, 2);
      UnfilledTick(cfg, Run(cfg, s0, Unfilled(2)).value);
    }
  }

  lemma BuffersAnyNumber(cfg: Config, s0: State, k: nat) returns (events: seq<Event>)
    requires Started(s0) && |s0.publishers| > 0 && cfg.booleanTerms == 0
    ensures BufferingTicks(cfg, s0, events) == k
  {
    events := Unfilled((if cfg.dependencies then 3 else 2) + k);
    BufferingGoesOn(cfg, s0, k);
  }

  /** No run handles the buffering phase more than once. */
  ghost predicate BuffersOnce(cfg: Config, s0: State) {
    forall events :: BufferingTicks(cfg, s0, events) <= 1
  }

  /** A configuration with publishers gives buffering a single tick exactly if it has a boolean term. */
  lemma BufferingOnceExactly(cfg: Config, s0: State)
    requires Started(s0) && |s0.publishers| > 0
    ensures BuffersOnce(cfg, s0) <==> cfg.booleanTerms > 0
  {
    if cfg.booleanTerms > 0 {
      forall events ensures BufferingTicks(cfg, s0, events) <= 1 { OneBufferingTick(cfg, s0, events); }
    } else {
      var events := BuffersAnyNumber(cfg, s0, 2);
      assert BufferingTicks(cfg, s0, events) == 2;
    }
  }

  lemma RunThenStep(cfg: Config, s: State, events: seq<Event>, e: Event)
    ensures Run(cfg, s, events + [e])
            == match Run(cfg, s, events) case Ok(s') => Step(cfg, s', e) case Err(error) => Err(error)
  {
    assert (events + [e])[..|events + [e]| - 1] == events;
  }

  lemma {:induction false} DecidedForGood(cfg: Config, s0: State, events: seq<Event>, more: seq<Event>)
    requires Run(cfg, s0, events + more).Ok?
    ensures Run(cfg, s0, events).Ok?
    ensures Decided(Run(cfg, s0, events).value.phase, Run(cfg, s0, events + more).value.phase)
  {
    if more == [] {
      assert events + more == events;
    } else {
      var before, last := more[..|more| - 1], more[|more| - 1];
      assert events + more == events + before + [last];
      RunThenStep(cfg, s0, events + before, last);
      DecidedForGood(cfg, s0, events, before);
      StepDecides(cfg, Run(cfg, s0, events + before).value, last);
    }
  }

  /**
    With a boolean term configured the first controller tick in the buffering phase decides the run: the
    process is given up exactly if some buffer is not full at that tick, however much time was left.
   */
  lemma {:induction false} BooleanTermTerminates(cfg: Config, s0: State, events: seq<Event>, env: Env, more: seq<Event>)
    requires Started(s0) && cfg.booleanTerms > 0
    requires Run(cfg, s0, events).Ok? && Run(cfg, s0, events).value.phase == Buffering
    ensures var r := Run(cfg, s0, events + [ControllerTick(env)] + more);
            && r.Ok? && !UpToBuffering(r.value.phase)
            && (GivenUp(r.value.phase) <==> !AllTrue(env.buffersFull))
  {
    assert Run(cfg, s0, events + [ControllerTick(env)] + more).Ok? by {
      RunInv(cfg, s0, events + [ControllerTick(env)] + more);
    }
    RunThenStep(cfg, s0, events, ControllerTick(env));
    assert Tick(cfg, Run(cfg, s0, events).value, env).Ok?;
    StepDecides(cfg, Run(cfg, s0, events).value, ControllerTick(env));
    DecidedForGood(cfg, s0, events + [ControllerTick(env)], more);
  }
}
