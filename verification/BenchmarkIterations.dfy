/**
  One test iteration from its start to its end: it begins with nothing recorded, and how long it runs.
 */
module BenchmarkIterations {
  import opened Wrappers
  import opened BenchmarkModel
  import opened BenchmarkRuns

  /** The events leave a running iteration running. */
  ghost predicate KeepsRunning(cfg: Config, s: State, events: seq<Event>)
    decreases |events|
  {
    && s.phase == Running && Run(cfg, s, events).Ok? && Run(cfg, s, events).value.phase == Running
    && (events != [] ==> KeepsRunning(cfg, s, events[..|events| - 1]))
  }

  lemma StepKeepsDeadline(cfg: Config, s: State, e: Event)
    requires s.phase == Running && Step(cfg, s, e).Ok? && Step(cfg, s, e).value.phase == Running
    ensures Step(cfg, s, e).value.timeout == s.timeout && Step(cfg, s, e).value.round == s.round
  {
  }

  /** While an iteration runs its deadline stands. */
  lemma {:induction false} RunningKeepsDeadline(cfg: Config, s: State, events: seq<Event>)
    requires KeepsRunning(cfg, s, events)
    ensures Run(cfg, s, events).value.timeout == s.timeout && Run(cfg, s, events).value.round == s.round
    decreases |events|
  {
    if events != [] {
      var before := events[..|events| - 1];
      RunningKeepsDeadline(cfg, s, before);
      StepKeepsDeadline(cfg, Run(cfg, s, before).value, events[|events| - 1]);
    }
  }

  predicate NothingRecorded(s: State) {
    && (forall i :: 0 <= i < |s.sinks| ==> s.sinks[i].recording && s.sinks[i].received == s.sinks[i].acqtimes == [])
    && (forall p :: 0 <= p < |s.profilers| ==> s.profilers[p].profiling && s.profilers[p].samples == [])
    && (forall q :: 0 <= q < |s.publishers| ==> s.publishers[q].enabled && s.publishers[q].published == [])
  }

  /** The state in which an iteration begins: everything is on and nothing recorded or published yet. */
  lemma IterationBegins(cfg: Config, s: State, start: Env)
    requires Inv(cfg, s) && s.phase == StartRunning && s.count < cfg.iterations
    ensures Tick(cfg, s, start).Ok? && Inv(cfg, Tick(cfg, s, start).value)
    ensures var begun := Tick(cfg, s, start).value;
            && begun.phase == Running && begun.round == s.round + 1 && begun.timeout == start.now + cfg.duration
            && NothingRecorded(begun)
  {
    TickKeepsInv(cfg, s, start);
  }

  /** An iteration ends with the first controller tick no earlier than the configured duration after its start. */
  lemma {:induction false} IterationLength(cfg: Config, s: State, start: Env, events: seq<Event>, end: Env)
    requires Inv(cfg, s) && s.phase == StartRunning && s.count < cfg.iterations && Tick(cfg, s, start).Ok?
    requires KeepsRunning(cfg, Tick(cfg, s, start).value, events)
    ensures var ran := Run(cfg, Tick(cfg, s, start).value, events);
            && ran.Ok? && Tick(cfg, ran.value, end).Ok?
            && Tick(cfg, ran.value, end).value.phase
               == if end.now < start.now + cfg.duration then Running else Summarize
  {
    IterationBegins(cfg, s, start);
    var begun := Tick(cfg, s, start).value;
    RunningKeepsDeadline(cfg, begun, events);
    RunKeepsInvFrom(cfg, begun, events);
    RunKeepsInv(cfg, Run(cfg, begun, events).value, end.now);
  }

  lemma {:induction false} RunKeepsInvFrom(cfg: Config, s: State, events: seq<Event>)
    requires Inv(cfg, s)
    ensures Run(cfg, s, events).Ok? && Inv(cfg, Run(cfg, s, events).value)
  {
    if events != [] {
      RunKeepsInvFrom(cfg, s, events[..|events| - 1]);
      StepKeepsInv(cfg, Run(cfg, s, events[..|events| - 1]).value, events[|events| - 1]);
    }
  }
}
