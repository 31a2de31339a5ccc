/**
  How the controller gets from its start to the test case, told in the readings it takes: it waits for its
  dependencies, gives buffering until its deadline, and goes on only with full buffers.
 */
module BenchmarkPhases {
  import opened Wrappers
  import opened BenchmarkModel
  import opened BenchmarkRuns
  import opened BenchmarkResults

  lemma SplitLast(a: seq<Event>, b: seq<Event>)
    requires b != []
    ensures a + b == a + b[..|b| - 1] + [b[|b| - 1]]
    ensures b == b[..|b| - 1] + [b[|b| - 1]]
  {
  }

  lemma {:induction false} RunConcat(cfg: Config, s: State, a: seq<Event>, b: seq<Event>)
    requires Run(cfg, s, a).Ok?
    ensures Run(cfg, s, a + b) == Run(cfg, Run(cfg, s, a).value, b)
  {
    if b == [] {
      assert a + b == a;
    } else {
      var before := b[..|b| - 1];
      SplitLast(a, b);
      RunConcat(cfg, s, a, before);
      RunThenStep(cfg, s, a + before, b[|b| - 1]);
      RunThenStep(cfg, Run(cfg, s, a).value, before, b[|b| - 1]);
    }
  }

  /** When the controller is to tick next: at the deadline it has set, or at once if that has passed. */
  lemma NextTarget(cfg: Config, s: State, env: Env)
    requires Tick(cfg, s, env).Ok?
    ensures var deadline := if s.phase == StartBuffering then env.now + cfg.bufferingTimeout
                            else if s.phase == StartRunning && s.count < cfg.iterations then env.now + cfg.duration
                            else s.timeout;
            Tick(cfg, s, env).value.timeout == if deadline < env.now then env.now else deadline
  {
  }

  // ---------------------------------------------------------------------------------------------
  // Dependencies
  // ---------------------------------------------------------------------------------------------

  lemma StepKeepsDependent(cfg: Config, s: State, e: Event)
    requires Step(cfg, s, e).Ok? && (s.phase == WaitingDependencies ==> cfg.dependencies)
    ensures Step(cfg, s, e).value.phase == WaitingDependencies ==> cfg.dependencies
  {
    if e.ControllerTick? {
      assert Tick(cfg, s, e.env).value.phase == Handle(cfg, s, e.env).value.phase;
    }
  }

  /** Only a controller with dependencies ever waits for them. */
  lemma {:induction false} WaitingHasDependencies(cfg: Config, s0: State, events: seq<Event>)
    requires Started(s0) && Run(cfg, s0, events).Ok? && Run(cfg, s0, events).value.phase == WaitingDependencies
    ensures cfg.dependencies
  {
    if events != [] && !cfg.dependencies {
      var before := events[..|events| - 1];
      if Run(cfg, s0, before).value.phase == WaitingDependencies {
        WaitingHasDependencies(cfg, s0, before);
      }
      StepKeepsDependent(cfg, Run(cfg, s0, before).value, events[|events| - 1]);
    }
  }

  /** Where the controller goes once nothing is left to wait for. */
  predicate Proceeds(publishers: nat, p: Phase) {
    p == if publishers == 0 then SetUpTestCase else StartBuffering
  }

  lemma StartupTick(cfg: Config, s: State, env: Env)
    requires s.phase == Init || (s.phase == WaitingDependencies && cfg.dependencies)
    ensures var r := Tick(cfg, s, env);
            && r.Ok?
            && (if cfg.dependencies && (s.phase == Init || !env.dependenciesReady)
                then r.value.phase == WaitingDependencies else Proceeds(|s.publishers|, r.value.phase))
  {
  }

  /**
    In every run the controller waits for its dependencies, if it has any, until a tick that finds them
    ready; then it goes to buffering, or to the test case if there are no publishers.
   */
  lemma {:induction false} WaitsForDependencies(cfg: Config, s0: State, events: seq<Event>, env: Env)
    requires Started(s0) && Run(cfg, s0, events).Ok?
    requires var p := Run(cfg, s0, events).value.phase; p == Init || p == WaitingDependencies
    ensures var p, r := Run(cfg, s0, events).value.phase, Run(cfg, s0, events + [ControllerTick(env)]);
            && r.Ok?
            && (if cfg.dependencies && (p == Init || !env.dependenciesReady)
                then r.value.phase == WaitingDependencies
                else r.value.phase == if |s0.publishers| == 0 then SetUpTestCase else StartBuffering)
  {
    var s := Run(cfg, s0, events).value;
    if s.phase == WaitingDependencies { WaitingHasDependencies(cfg, s0, events); }
    StartupTick(cfg, s, env);
    RunThenStep(cfg, s0, events, ControllerTick(env));
    RunKeepsWiring(cfg, s0, events);
  }

  // ---------------------------------------------------------------------------------------------
  // Buffering
  // ---------------------------------------------------------------------------------------------

  lemma StepIntoBuffering(cfg: Config, s: State, e: Event)
    requires Step(cfg, s, e).Ok? && s.phase != Init && s.phase != WaitingDependencies && s.phase != StartBuffering
    ensures var after := Step(cfg, s, e).value;
            && after.phase != Init && after.phase != WaitingDependencies && after.phase != StartBuffering
            && (after.phase == Buffering ==> s.phase == Buffering && after.timeout == s.timeout)
  {
    if e.ControllerTick? {
      assert Tick(cfg, s, e.env).value.phase == Handle(cfg, s, e.env).value.phase;
    }
  }

  /** While the controller is buffering its deadline stands. */
  lemma {:induction false} BufferingKeepsDeadline(cfg: Config, s: State, events: seq<Event>)
    requires s.phase == Buffering && Run(cfg, s, events).Ok?
    ensures var after := Run(cfg, s, events).value;
            && after.phase != Init && after.phase != WaitingDependencies && after.phase != StartBuffering
            && (after.phase == Buffering ==> after.timeout == s.timeout)
  {
    if events != [] {
      var before := events[..|events| - 1];
      BufferingKeepsDeadline(cfg, s, before);
      StepIntoBuffering(cfg, Run(cfg, s, before).value, events[|events| - 1]);
    }
  }

  /** What one tick in the buffering phase decides without boolean terms. */
  lemma BufferingTick(cfg: Config, s: State, env: Env)
    requires s.phase == Buffering && cfg.booleanTerms == 0
    ensures var full := forall i :: 0 <= i < |env.buffersFull| ==> env.buffersFull[i];
            var done := forall i :: 0 <= i < |env.sourcesDone| ==> env.sourcesDone[i];
            var r := Tick(cfg, s, env);
            r.Ok? && r.value.phase == if full then StopBuffering
                                      else if env.now <= s.timeout && done then Buffering
                                      else Terminating
  {
    assert AllTrue(env.buffersFull) == forall i :: 0 <= i < |env.buffersFull| ==> env.buffersFull[i];
    assert AllTrue(env.sourcesDone) == forall i :: 0 <= i < |env.sourcesDone| ==> env.sourcesDone[i];
  }

  /**
    Without boolean terms a tick in the buffering phase, however long that has lasted, leads on exactly if all
    buffers are full: to the stop of the buffering, and with the next tick to the test case. Otherwise it stays
    exactly if the time since buffering was started is not over and all data sources are still there.
   */
  lemma {:induction false} BufferingDecides(cfg: Config, s0: State, events: seq<Event>, begin: Env,
                                            waits: seq<Event>, env: Env, next: Env)
    requires Started(s0) && cfg.booleanTerms == 0
    requires Run(cfg, s0, events).Ok? && Run(cfg, s0, events).value.phase == StartBuffering
    requires Run(cfg, s0, events + [ControllerTick(begin)] + waits).Ok?
    requires Run(cfg, s0, events + [ControllerTick(begin)] + waits).value.phase == Buffering
    ensures var full := forall i :: 0 <= i < |env.buffersFull| ==> env.buffersFull[i];
            var done := forall i :: 0 <= i < |env.sourcesDone| ==> env.sourcesDone[i];
            var ran := events + [ControllerTick(begin)] + waits + [ControllerTick(env)];
            && Run(cfg, s0, ran).Ok?
            && Run(cfg, s0, ran).value.phase == (if full then StopBuffering
                                                 else if env.now <= begin.now + cfg.bufferingTimeout && done
                                                      then Buffering
                                                 else Terminating)
            && (full ==> Run(cfg, s0, ran + [ControllerTick(next)]).Ok?
                         && Run(cfg, s0, ran + [ControllerTick(next)]).value.phase == SetUpTestCase)
  {
    var begun := events + [ControllerTick(begin)];
    RunThenStep(cfg, s0, events, ControllerTick(begin));
    NextTarget(cfg, Run(cfg, s0, events).value, begin);
    var s := Run(cfg, s0, begun).value;
    assert s.phase == Buffering && s.timeout == begin.now + cfg.bufferingTimeout;
    RunConcat(cfg, s0, begun, waits);
    BufferingKeepsDeadline(cfg, s, waits);
    var at := Run(cfg, s0, begun + waits).value;
    BufferingTick(cfg, at, env);
    RunThenStep(cfg, s0, begun + waits, ControllerTick(env));
    RunThenStep(cfg, s0, begun + waits + [ControllerTick(env)], ControllerTick(next));
  }

  /** And if neither, the process is given up in every continuation. */
  lemma {:induction false} BufferingGivenUp(cfg: Config, s0: State, events: seq<Event>, begin: Env,
                                            waits: seq<Event>, env: Env, more: seq<Event>)
    requires Started(s0) && cfg.booleanTerms == 0
    requires Run(cfg, s0, events).Ok? && Run(cfg, s0, events).value.phase == StartBuffering
    requires Run(cfg, s0, events + [ControllerTick(begin)] + waits).Ok?
    requires Run(cfg, s0, events + [ControllerTick(begin)] + waits).value.phase == Buffering
    requires exists i :: 0 <= i < |env.buffersFull| && !env.buffersFull[i]
    requires env.now > begin.now + cfg.bufferingTimeout || exists i :: 0 <= i < |env.sourcesDone| && !env.sourcesDone[i]
    ensures var r := Run(cfg, s0, events + [ControllerTick(begin)] + waits + [ControllerTick(env)] + more);
            r.Ok? && (r.value.phase == Terminating || r.value.phase == Exited)
  {
    var ran := events + [ControllerTick(begin)] + waits + [ControllerTick(env)];
    BufferingDecides(cfg, s0, events, begin, waits, env, env);
    assert Run(cfg, s0, ran + more).Ok? by { RunInv(cfg, s0, ran + more); }
    DecidedForGood(cfg, s0, ran, more);
  }

  // ---------------------------------------------------------------------------------------------
  // Publishers
  // ---------------------------------------------------------------------------------------------

  /** An enabled publisher with messages publishes, unless it has published its limit: then it stops itself. */
  lemma PublisherStops(cfg: Config, s: State, q: nat, buffered: nat, time: int)
    requires q < |s.publishers| && s.publishers[q].enabled && buffered > 0
    ensures var r := Step(cfg, s, PublisherTick(q, buffered, time));
            && r.Ok? && |r.value.publishers| == |s.publishers|
            && var before, after := s.publishers[q], r.value.publishers[q];
               if before.limit > 0 && |before.published| >= before.limit then
                 !after.enabled && after.published == before.published
               else
                 after.enabled && after.published == before.published + [Stamp(s.round, time)]
  {
  }

  /** No iteration of any run has more publications than the publisher's limit. */
  lemma {:induction false} PublicationsLimited(cfg: Config, s0: State, events: seq<Event>, q: nat, round: nat)
    requires Started(s0) && Run(cfg, s0, events).Ok? && q < |s0.publishers| && s0.publishers[q].limit > 0
    ensures |During(cfg, s0, events, Publications(q, s0.publishers[q].limit), round)| <= s0.publishers[q].limit
  {
    if events != [] {
      PublicationsLimited(cfg, s0, events[..|events| - 1], q, round);
    }
  }
}
