/**
  What a run of the benchmark delivers: every result in every history is made of exactly what arrived,
  what was published and what was sampled while its own iteration ran, in order.
 */
module BenchmarkResults {
  import opened Wrappers
  import opened BenchmarkModel
  import opened BenchmarkRuns

  // ---------------------------------------------------------------------------------------------
  // What happens in an iteration, told from the events alone
  // ---------------------------------------------------------------------------------------------

  /** Something that is recorded: the messages reaching a sink, their acquisition times, and so on. */
  datatype Source =
    | Arrivals(sink: nat)
    | Acqtimes(sink: nat)
    | Samples(profiler: nat)
    | Publications(publisher: nat, limit: nat)

  /** What one event adds, where `sofar` stamps of the source are there already. A limit of 0 is none. */
  function Mark(src: Source, e: Event, sofar: nat, round: nat): seq<Stamp> {
    match src
    case Arrivals(i) => if e.SinkTick? && e.sink == i then [Stamp(round, e.time)] else []
    case Acqtimes(i) => if e.SinkTick? && e.sink == i then [Stamp(round, e.acqtime)] else []
    case Samples(p) => if e.ProfilerTick? && e.profiler == p then [Stamp(round, e.time)] else []
    case Publications(q, limit) =>
      if e.PublisherTick? && e.publisher == q && e.buffered > 0 && (limit == 0 || sofar < limit)
      then [Stamp(round, e.time)] else []
  }

  /** What the event adds to what was recorded of an iteration, when it happens in state `s`. */
  function Added(s: State, e: Event, src: Source, round: nat, sofar: nat): seq<Stamp> {
    if s.phase == Running && s.round == round then Mark(src, e, sofar, round) else []
  }

  /** Everything of a source that happened in the course of a run while iteration `round` was running. */
  ghost function During(cfg: Config, s0: State, events: seq<Event>, src: Source, round: nat): seq<Stamp> {
    if events == [] then []
    else
      var before := events[..|events| - 1];
      var sofar := During(cfg, s0, before, src, round);
      sofar + match Run(cfg, s0, before)
              case Ok(s) => Added(s, events[|events| - 1], src, round, |sofar|)
              case Err(_) => []
  }

  /** All of that at once. */
  type Log = (Source, nat) -> seq<Stamp>

  ghost function LogOf(cfg: Config, s0: State, events: seq<Event>): Log {
    (src: Source, round: nat) => During(cfg, s0, events, src, round)
  }

  ghost predicate Logged(log: Log, after: Log, s: State, e: Event) {
    forall src, round :: after(src, round) == log(src, round) + Added(s, e, src, round, |log(src, round)|)
  }

  ghost predicate SameLog(log: Log, after: Log) {
    forall src, round :: after(src, round) == log(src, round)
  }

  lemma StepLogged(cfg: Config, s0: State, events: seq<Event>, e: Event)
    requires Run(cfg, s0, events).Ok?
    ensures Logged(LogOf(cfg, s0, events), LogOf(cfg, s0, events + [e]), Run(cfg, s0, events).value, e)
  {
    assert (events + [e])[..|events|] == events;
  }

  // ---------------------------------------------------------------------------------------------
  // What the components hold of it
  // ---------------------------------------------------------------------------------------------

  /** The view of the controller's state that a component's state must agree with. */
  datatype View = View(phase: Phase, round: nat, results: nat, first: nat)

  /** How many results the histories hold, once the test case is set up. */
  function ResultCount(cfg: Config, s: State): nat {
    if InIteration(s.phase) then (if s.trialRunning || s.count == 0 then 0 else s.count - 1)
    else if s.phase == StartRunning && !s.trialRunning && s.count == 0 then TrialRounds(cfg)
    else s.count
  }

  /** The round of the first result: the trial's own only until the first counted iteration starts. */
  function FirstRound(cfg: Config, s: State): nat {
    if s.phase == StartRunning && !s.trialRunning && s.count == 0 then 1 else 1 + TrialRounds(cfg)
  }

  function ViewOf(cfg: Config, s: State): View { View(s.phase, s.round, ResultCount(cfg, s), FirstRound(cfg, s)) }

  function Limits(publishers: seq<Publisher>): (limits: seq<nat>)
    ensures |limits| == |publishers|
  {
    seq(|publishers|, q requires 0 <= q < |publishers| => publishers[q].limit)
  }

  /** The publication times that belong to the messages of sink `i` in an iteration. */
  ghost function PublishedIn(log: Log, i: nat, k: Sink, limits: seq<nat>, round: nat): seq<Stamp> {
    if k.useAcqtimes then log(Acqtimes(i), round)
    else if k.publisher.Some? && k.publisher.value < |limits| then
      log(Publications(k.publisher.value, limits[k.publisher.value]), round)
    else []
  }

  /** A history of `len` results, the j-th made of exactly what happened in round `first + j`. */
  ghost predicate HistoryExact(log: Log, h: seq<Entry>, i: nat, k: Sink, limits: seq<nat>, len: nat, first: nat) {
    |h| == len && forall j :: 0 <= j < len ==>
      h[j] == Entry(PublishedIn(log, i, k, limits, first + j), log(Arrivals(i), first + j))
  }

  ghost predicate ProfileExact(log: Log, h: seq<seq<Stamp>>, p: nat, len: nat, first: nat) {
    |h| == len && forall j :: 0 <= j < len ==> h[j] == log(Samples(p), first + j)
  }

  ghost predicate SinkExact(log: Log, v: View, i: nat, k: Sink, limits: seq<nat>) {
    && (InIteration(v.phase) ==>
          && k.received == log(Arrivals(i), v.round)
          && k.acqtimes == if k.useAcqtimes then log(Acqtimes(i), v.round) else [])
    && (!BeforeSetUp(v.phase) ==>
          forall c :: 0 <= c < |k.histories| ==> HistoryExact(log, k.histories[c], i, k, limits, v.results, v.first))
  }

  ghost predicate ProfilerExact(log: Log, v: View, p: nat, k: Profiler) {
    && (InIteration(v.phase) ==> k.samples == log(Samples(p), v.round))
    && (!BeforeSetUp(v.phase) ==> ProfileExact(log, k.history, p, v.results, v.first))
  }

  ghost predicate PublisherExact(log: Log, v: View, q: nat, k: Publisher) {
    && (InIteration(v.phase) ==> k.published == log(Publications(q, k.limit), v.round))
    && (v.phase == Running ==> k.enabled || (k.limit != 0 && |k.published| >= k.limit))
  }

  ghost predicate SinksExact(log: Log, v: View, sinks: seq<Sink>, limits: seq<nat>) {
    forall i :: 0 <= i < |sinks| ==> SinkExact(log, v, i, sinks[i], limits)
  }

  ghost predicate ProfilersExact(log: Log, v: View, profilers: seq<Profiler>) {
    forall p :: 0 <= p < |profilers| ==> ProfilerExact(log, v, p, profilers[p])
  }

  ghost predicate PublishersExact(log: Log, v: View, publishers: seq<Publisher>) {
    forall q :: 0 <= q < |publishers| ==> PublisherExact(log, v, q, publishers[q])
  }

  /** Nothing is known of iterations that have not begun. */
  ghost predicate NothingAfter(log: Log, round: nat) {
    forall src, r :: r > round ==> log(src, r) == []
  }

  ghost predicate ComponentsExact(log: Log, v: View, s: State) {
    && SinksExact(log, v, s.sinks, Limits(s.publishers))
    && ProfilersExact(log, v, s.profilers)
    && PublishersExact(log, v, s.publishers)
    && NothingAfter(log, v.round)
  }

  ghost predicate Exact(cfg: Config, log: Log, s: State) { ComponentsExact(log, ViewOf(cfg, s), s) }

  // ---------------------------------------------------------------------------------------------
  // Messages, publications and samples
  // ---------------------------------------------------------------------------------------------

  /** The results there are belong to earlier iterations than the one that is running. */
  predicate ResultsPast(v: View) { v.phase == Running && (v.results == 0 || v.first + v.results <= v.round) }

  lemma SinkRecords(log: Log, after: Log, v: View, s: State, e: Event, i: nat, k: Sink, limits: seq<nat>)
    requires ResultsPast(v) && s.phase == v.phase && s.round == v.round && Logged(log, after, s, e)
    requires SinkExact(log, v, i, k, limits) && k.recording
    ensures SinkExact(after, v, i, if e.SinkTick? && e.sink == i
                                   then ReceiveMessage(k, v.round, e.time, e.acqtime) else k, limits)
  {
    var k' := if e.SinkTick? && e.sink == i then ReceiveMessage(k, v.round, e.time, e.acqtime) else k;
    forall c | 0 <= c < |k.histories|
      ensures HistoryExact(after, k'.histories[c], i, k', limits, v.results, v.first)
    {
      assert HistoryExact(log, k.histories[c], i, k, limits, v.results, v.first);
    }
  }

  lemma ProfilerRecords(log: Log, after: Log, v: View, s: State, e: Event, p: nat, k: Profiler)
    requires ResultsPast(v) && s.phase == v.phase && s.round == v.round && Logged(log, after, s, e)
    requires ProfilerExact(log, v, p, k) && k.profiling
    ensures ProfilerExact(after, v, p, if e.ProfilerTick? && e.profiler == p then TakeSample(k, v.round, e.time) else k)
  {
  }

  lemma PublisherRecords(log: Log, after: Log, v: View, s: State, e: Event, q: nat, k: Publisher)
    requires ResultsPast(v) && s.phase == v.phase && s.round == v.round && Logged(log, after, s, e)
    requires PublisherExact(log, v, q, k)
    ensures PublisherExact(after, v, q, if e.PublisherTick? && e.publisher == q
                                        then PublishMessage(k, e.buffered, v.round, e.time) else k)
  {
  }

  lemma SinksRecord(log: Log, after: Log, v: View, s: State, e: Event, s': State, limits: seq<nat>)
    requires ResultsPast(v) && s.phase == v.phase && s.round == v.round && Logged(log, after, s, e)
    requires SinksExact(log, v, s.sinks, limits) && FlagsOk(s)
    requires s'.sinks == if e.SinkTick? && e.sink < |s.sinks|
                         then s.sinks[e.sink := ReceiveMessage(s.sinks[e.sink], s.round, e.time, e.acqtime)]
                         else s.sinks
    ensures SinksExact(after, v, s'.sinks, limits)
  {
    forall i | 0 <= i < |s'.sinks| ensures SinkExact(after, v, i, s'.sinks[i], limits) {
      SinkRecords(log, after, v, s, e, i, s.sinks[i], limits);
    }
  }

  lemma ProfilersRecord(log: Log, after: Log, v: View, s: State, e: Event, s': State)
    requires ResultsPast(v) && s.phase == v.phase && s.round == v.round && Logged(log, after, s, e)
    requires ProfilersExact(log, v, s.profilers) && FlagsOk(s)
    requires s'.profilers == if e.ProfilerTick? && e.profiler < |s.profilers|
                             then s.profilers[e.profiler := TakeSample(s.profilers[e.profiler], s.round, e.time)]
                             else s.profilers
    ensures ProfilersExact(after, v, s'.profilers)
  {
    forall p | 0 <= p < |s'.profilers| ensures ProfilerExact(after, v, p, s'.profilers[p]) {
      ProfilerRecords(log, after, v, s, e, p, s.profilers[p]);
    }
  }

  lemma PublishersRecord(log: Log, after: Log, v: View, s: State, e: Event, s': State)
    requires ResultsPast(v) && s.phase == v.phase && s.round == v.round && Logged(log, after, s, e)
    requires PublishersExact(log, v, s.publishers)
    requires s'.publishers == if e.PublisherTick? && e.publisher < |s.publishers|
                              then s.publishers[e.publisher :=
                                     PublishMessage(s.publishers[e.publisher], e.buffered, s.round, e.time)]
                              else s.publishers
    ensures PublishersExact(after, v, s'.publishers) && Limits(s'.publishers) == Limits(s.publishers)
  {
    forall q | 0 <= q < |s'.publishers| ensures PublisherExact(after, v, q, s'.publishers[q]) {
      PublisherRecords(log, after, v, s, e, q, s.publishers[q]);
    }
  }

  lemma RunningRecords(cfg: Config, log: Log, after: Log, s: State, e: Event)
    requires Inv(cfg, s) && s.phase == Running && !e.ControllerTick?
    requires Exact(cfg, log, s) && Logged(log, after, s, e)
    ensures Step(cfg, s, e).Ok? && Exact(cfg, after, Step(cfg, s, e).value)
  {
    var v, s' := ViewOf(cfg, s), Step(cfg, s, e).value;
    assert ViewOf(cfg, s') == v && ResultsPast(v);
    SinksRecord(log, after, v, s, e, s', Limits(s.publishers));
    ProfilersRecord(log, after, v, s, e, s');
    PublishersRecord(log, after, v, s, e, s');
  }

  lemma SameLogExact(log: Log, after: Log, v: View, s: State)
    requires SameLog(log, after) && ComponentsExact(log, v, s)
    ensures ComponentsExact(after, v, s)
  {
    forall i | 0 <= i < |s.sinks| ensures SinkExact(after, v, i, s.sinks[i], Limits(s.publishers)) {
      assert SinkExact(log, v, i, s.sinks[i], Limits(s.publishers));
    }
  }

  /** Outside an iteration components ignore what comes in. */
  lemma NothingRecorded(cfg: Config, s: State, e: Event)
    requires Inv(cfg, s) && s.phase != Running && !e.ControllerTick?
    ensures Step(cfg, s, e) == Ok(s)
  {
    match e {
      case SinkTick(i, _, _) =>
        if i < |s.sinks| { assert s.sinks[i := s.sinks[i]] == s.sinks; }
      case PublisherTick(q, _, _) =>
        if q < |s.publishers| { assert s.publishers[q := s.publishers[q]] == s.publishers; }
      case ProfilerTick(p, _) =>
        if p < |s.profilers| { assert s.profilers[p := s.profilers[p]] == s.profilers; }
    }
  }

  // ---------------------------------------------------------------------------------------------
  // Controller ticks
  // ---------------------------------------------------------------------------------------------

  lemma ResetKeepsExact(log: Log, v: View, after: View, s: State)
    requires ComponentsExact(log, v, s)
    requires !InIteration(v.phase) && after.phase == StartRunning && after.results == 0 && after.round == v.round
    ensures ComponentsExact(log, after, ResetAll(s))
  {
  }

  /** A fresh iteration forgets what was recorded before and keeps the results there are. */
  lemma BeginKeepsExact(log: Log, v: View, after: View, s: State, s': State)
    requires ComponentsExact(log, v, s) && v.phase == StartRunning
    requires after == v.(phase := Running, round := v.round + 1)
    requires s'.sinks == Apply(s.sinks, BeginSink) && s'.profilers == Apply(s.profilers, BeginProfiler)
    requires s'.publishers == EnableAll(Apply(s.publishers, ClearPublisher), true)
    ensures ComponentsExact(log, after, s')
  {
    assert Limits(s'.publishers) == Limits(s.publishers);
    forall i | 0 <= i < |s'.sinks| ensures SinkExact(log, after, i, s'.sinks[i], Limits(s.publishers)) {
      assert SinkExact(log, v, i, s.sinks[i], Limits(s.publishers));
    }
  }

  lemma StartKeepsExact(cfg: Config, log: Log, s: State, now: int)
    requires Inv(cfg, s) && s.phase == StartRunning && Exact(cfg, log, s)
    ensures StartIteration(cfg, s, now).Ok? && Exact(cfg, log, StartIteration(cfg, s, now).value)
  {
    StartKeepsInv(cfg, s, now);
    var s', v := StartIteration(cfg, s, now).value, ViewOf(cfg, s);
    if s.count >= cfg.iterations {
      ViewMayChange(log, v, ViewOf(cfg, s'), s, s');
    } else {
      var resets := !s.trialRunning && s.count == 0;
      var v1 := if resets then v.(results := 0, first := 1 + TrialRounds(cfg)) else v;
      if resets { ResetKeepsExact(log, v, v1, s); }
      BeginKeepsExact(log, v1, ViewOf(cfg, s'), CountIteration(s), s');
    }
  }

  /** The end of an iteration changes nothing that was recorded in it. */
  lemma EndKeepsComponents(log: Log, v: View, after: View, s: State, s': State)
    requires ComponentsExact(log, v, s) && v.phase == Running && after == v.(phase := Summarize)
    requires s'.sinks == Apply(s.sinks, EndSink) && s'.profilers == Apply(s.profilers, EndProfiler)
    requires s'.publishers == EnableAll(s.publishers, false)
    ensures ComponentsExact(log, after, s')
  {
    assert Limits(s'.publishers) == Limits(s.publishers);
    forall i | 0 <= i < |s'.sinks| ensures SinkExact(log, after, i, s'.sinks[i], Limits(s.publishers)) {
      assert SinkExact(log, v, i, s.sinks[i], Limits(s.publishers));
    }
  }

  lemma EndKeepsExact(cfg: Config, log: Log, s: State, now: int)
    requires Inv(cfg, s) && s.phase == Running && Exact(cfg, log, s)
    ensures RunIteration(s, now).Ok? && Exact(cfg, log, RunIteration(s, now).value)
  {
    RunKeepsInv(cfg, s, now);
    var s' := RunIteration(s, now).value;
    if now >= s.timeout {
      EndKeepsComponents(log, ViewOf(cfg, s), ViewOf(cfg, s'), s, s');
    }
  }

  /** What a calculator is given at the end of an iteration is what happened in it. */
  lemma HandedOver(log: Log, v: View, i: nat, k: Sink, s: State)
    requires SinkExact(log, v, i, k, Limits(s.publishers)) && PublishersExact(log, v, s.publishers)
    requires InIteration(v.phase)
    ensures k.received == log(Arrivals(i), v.round)
    ensures PublishedFor(k, s.publishers) == PublishedIn(log, i, k, Limits(s.publishers), v.round)
  {
    if k.publisher.Some? && k.publisher.value < |s.publishers| {
      assert PublisherExact(log, v, k.publisher.value, s.publishers[k.publisher.value]);
    }
  }

  lemma HistoryGrows(log: Log, h: seq<Entry>, i: nat, k: Sink, limits: seq<nat>, len: nat, first: nat, e: Entry)
    requires HistoryExact(log, h, i, k, limits, len, first)
    requires e == Entry(PublishedIn(log, i, k, limits, first + len), log(Arrivals(i), first + len))
    ensures HistoryExact(log, h + [e], i, k, limits, len + 1, first)
  {
  }

  lemma SinkComputes(log: Log, v: View, after: View, i: nat, k: Sink, s: State)
    requires SinkExact(log, v, i, k, Limits(s.publishers)) && PublishersExact(log, v, s.publishers)
    requires v.phase == Summarize && after.phase == StartRunning && after.results == v.results + 1
    requires after.first + v.results == v.round && (v.results > 0 ==> after.first == v.first)
    ensures SinkExact(log, after, i, ComputeSink(k, s.publishers), Limits(s.publishers))
  {
    var limits, k' := Limits(s.publishers), ComputeSink(k, s.publishers);
    HandedOver(log, v, i, k, s);
    var e := Entry(PublishedFor(k, s.publishers), k.received);
    forall c | 0 <= c < |k'.histories|
      ensures HistoryExact(log, k'.histories[c], i, k', limits, after.results, after.first)
    {
      assert HistoryExact(log, k.histories[c], i, k', limits, v.results, after.first) by {
        assert HistoryExact(log, k.histories[c], i, k, limits, v.results, v.first);
      }
      HistoryGrows(log, k.histories[c], i, k', limits, v.results, after.first, e);
    }
  }

  lemma SinksCompute(log: Log, v: View, after: View, s: State)
    requires SinksExact(log, v, s.sinks, Limits(s.publishers)) && PublishersExact(log, v, s.publishers)
    requires v.phase == Summarize && after.phase == StartRunning && after.results == v.results + 1
    requires after.first + v.results == v.round && (v.results > 0 ==> after.first == v.first)
    ensures SinksExact(log, after, ComputeSinks(s.sinks, s.publishers), Limits(s.publishers))
  {
    forall i | 0 <= i < |s.sinks|
      ensures SinkExact(log, after, i, ComputeSink(s.sinks[i], s.publishers), Limits(s.publishers))
    {
      SinkComputes(log, v, after, i, s.sinks[i], s);
    }
  }

  lemma ProfilersCompute(log: Log, v: View, after: View, profilers: seq<Profiler>)
    requires ProfilersExact(log, v, profilers)
    requires v.phase == Summarize && after.phase == StartRunning && after.results == v.results + 1
    requires after.first + v.results == v.round && (v.results > 0 ==> after.first == v.first)
    ensures ProfilersExact(log, after, Apply(profilers, ComputeProfiler))
  {
    forall p | 0 <= p < |profilers| ensures ProfilerExact(log, after, p, ComputeProfiler(profilers[p])) {
      assert ProfilerExact(log, v, p, profilers[p]);
    }
  }

  /** The results of an iteration that has ended are made of what happened in it. */
  lemma ComputeKeepsExact(log: Log, v: View, after: View, s: State, s': State)
    requires ComponentsExact(log, v, s)
    requires v.phase == Summarize && after.phase == StartRunning && after.results == v.results + 1
    requires after.first + v.results == v.round == after.round && (v.results > 0 ==> after.first == v.first)
    requires s'.sinks == ComputeSinks(s.sinks, s.publishers) && s'.publishers == s.publishers
    requires s'.profilers == Apply(s.profilers, ComputeProfiler)
    ensures ComponentsExact(log, after, s')
  {
    SinksCompute(log, v, after, s);
    ProfilersCompute(log, v, after, s.profilers);
  }

  lemma {:induction false} SummarizeKeepsExact(cfg: Config, log: Log, s: State)
    requires Inv(cfg, s) && s.phase == Summarize && Exact(cfg, log, s)
    ensures Exact(cfg, log, SummarizeIteration(s))
  {
    ComputeKeepsExact(log, ViewOf(cfg, s), ViewOf(cfg, SummarizeIteration(s)), s, SummarizeIteration(s));
  }

  lemma ViewMayChange(log: Log, v: View, after: View, s: State, s': State)
    requires ComponentsExact(log, v, s)
    requires s'.sinks == s.sinks && s'.profilers == s.profilers && s'.publishers == s.publishers
    requires !InIteration(v.phase) && !InIteration(after.phase) && after.round == v.round
    requires BeforeSetUp(after.phase) || (!BeforeSetUp(v.phase) && after.results == v.results && after.first == v.first)
    ensures ComponentsExact(log, after, s')
  {
    forall i | 0 <= i < |s'.sinks| ensures SinkExact(log, after, i, s'.sinks[i], Limits(s.publishers)) {
      assert SinkExact(log, v, i, s.sinks[i], Limits(s.publishers));
    }
  }

  /** The phases that touch no component: before the set-up, and after the conclusion. */
  lemma QuietKeepsExact(cfg: Config, log: Log, s: State, env: Env)
    requires Inv(cfg, s) && Exact(cfg, log, s)
    requires s.phase != SetUpTestCase && s.phase != StartRunning && !InIteration(s.phase)
    ensures Handle(cfg, s, env).Ok? && Exact(cfg, log, Handle(cfg, s, env).value)
  {
    var s' := Handle(cfg, s, env).value;
    ViewMayChange(log, ViewOf(cfg, s), ViewOf(cfg, s'), s, s');
  }

  lemma HandleKeepsExact(cfg: Config, log: Log, s: State, env: Env)
    requires Inv(cfg, s) && Exact(cfg, log, s)
    ensures Handle(cfg, s, env).Ok? && Exact(cfg, log, Handle(cfg, s, env).value)
  {
    if s.phase == SetUpTestCase {
      var begun := s.(count := 0, trialRunning := cfg.trial, phase := StartRunning);
      ResetKeepsExact(log, ViewOf(cfg, s), ViewOf(cfg, SetUp(cfg, s)), begun);
    } else if s.phase == StartRunning {
      StartKeepsExact(cfg, log, s, env.now);
    } else if s.phase == Running {
      EndKeepsExact(cfg, log, s, env.now);
    } else if s.phase == Summarize {
      SummarizeKeepsExact(cfg, log, s);
    } else {
      QuietKeepsExact(cfg, log, s, env);
    }
  }

  lemma StepKeepsExact(cfg: Config, log: Log, after: Log, s: State, e: Event)
    requires Inv(cfg, s) && Exact(cfg, log, s) && Logged(log, after, s, e)
    ensures Step(cfg, s, e).Ok? && Exact(cfg, after, Step(cfg, s, e).value)
  {
    if e.ControllerTick? {
      HandleKeepsExact(cfg, log, s, e.env);
      var handled, ticked := Handle(cfg, s, e.env).value, Step(cfg, s, e).value;
      assert SameLog(log, after);
      SameLogExact(log, after, ViewOf(cfg, handled), handled);
      assert ViewOf(cfg, ticked) == ViewOf(cfg, handled);
    } else if s.phase == Running {
      RunningRecords(cfg, log, after, s, e);
    } else {
      NothingRecorded(cfg, s, e);
      assert SameLog(log, after);
      SameLogExact(log, after, ViewOf(cfg, s), s);
    }
  }

  // ---------------------------------------------------------------------------------------------
  // Whole runs
  // ---------------------------------------------------------------------------------------------

  lemma NextExact(cfg: Config, s0: State, events: seq<Event>, e: Event)
    requires Run(cfg, s0, events).Ok? && Inv(cfg, Run(cfg, s0, events).value)
    requires Exact(cfg, LogOf(cfg, s0, events), Run(cfg, s0, events).value)
    ensures Run(cfg, s0, events + [e]).Ok?
    ensures Exact(cfg, LogOf(cfg, s0, events + [e]), Run(cfg, s0, events + [e]).value)
  {
    RunThenStep(cfg, s0, events, e);
    StepLogged(cfg, s0, events, e);
    StepKeepsExact(cfg, LogOf(cfg, s0, events), LogOf(cfg, s0, events + [e]), Run(cfg, s0, events).value, e);
  }

  /** In every state of every run all components hold exactly what happened, in the iterations it belongs to. */
  lemma {:induction false} RunExact(cfg: Config, s0: State, events: seq<Event>)
    requires Started(s0)
    ensures Run(cfg, s0, events).Ok? && Exact(cfg, LogOf(cfg, s0, events), Run(cfg, s0, events).value)
  {
    if events != [] {
      var before, last := events[..|events| - 1], events[|events| - 1];
      assert events == before + [last];
      RunExact(cfg, s0, before);
      RunInv(cfg, s0, before);
      NextExact(cfg, s0, before, last);
    }
  }

  /** What a test case consists of does not change: which sink looks at which publisher, and the limits. */
  predicate SameWiring(s0: State, s: State) {
    && |s.sinks| == |s0.sinks| && |s.profilers| == |s0.profilers| && |s.publishers| == |s0.publishers|
    && (forall i :: 0 <= i < |s.sinks| ==>
          && s.sinks[i].useAcqtimes == s0.sinks[i].useAcqtimes && s.sinks[i].publisher == s0.sinks[i].publisher
          && |s.sinks[i].histories| == |s0.sinks[i].histories|)
    && (forall q :: 0 <= q < |s.publishers| ==> s.publishers[q].limit == s0.publishers[q].limit)
  }

  lemma StartKeepsWiring(cfg: Config, s: State, now: int)
    requires StartIteration(cfg, s, now).Ok?
    ensures SameWiring(s, StartIteration(cfg, s, now).value)
  {
    assert SameWiring(s, CountIteration(s));
  }

  lemma HandleKeepsWiring(cfg: Config, s: State, env: Env)
    requires Handle(cfg, s, env).Ok?
    ensures SameWiring(s, Handle(cfg, s, env).value)
  {
    if s.phase == StartRunning { StartKeepsWiring(cfg, s, env.now); }
  }

  lemma StepKeepsWiring(cfg: Config, s: State, e: Event)
    requires Step(cfg, s, e).Ok?
    ensures SameWiring(s, Step(cfg, s, e).value)
  {
    if e.ControllerTick? { HandleKeepsWiring(cfg, s, e.env); }
  }

  lemma {:induction false} RunKeepsWiring(cfg: Config, s0: State, events: seq<Event>)
    requires Run(cfg, s0, events).Ok?
    ensures SameWiring(s0, Run(cfg, s0, events).value)
  {
    if events != [] {
      RunKeepsWiring(cfg, s0, events[..|events| - 1]);
      StepKeepsWiring(cfg, Run(cfg, s0, events[..|events| - 1]).value, events[|events| - 1]);
    }
  }

  /** While an iteration runs, and until its summary, the lists hold exactly what happened in it. */
  lemma {:induction false} RunningRecordsAll(cfg: Config, s0: State, events: seq<Event>, i: nat, p: nat, q: nat)
    requires Started(s0) && Run(cfg, s0, events).Ok? && InIteration(Run(cfg, s0, events).value.phase)
    ensures var s := Run(cfg, s0, events).value;
            && (i < |s.sinks| ==> s.sinks[i].received == During(cfg, s0, events, Arrivals(i), s.round))
            && (i < |s.sinks| ==> s.sinks[i].acqtimes == if s.sinks[i].useAcqtimes
                                                         then During(cfg, s0, events, Acqtimes(i), s.round) else [])
            && (p < |s.profilers| ==> s.profilers[p].samples == During(cfg, s0, events, Samples(p), s.round))
            && (q < |s.publishers| ==>
                  s.publishers[q].published
                  == During(cfg, s0, events, Publications(q, s.publishers[q].limit), s.round))
  {
    RunExact(cfg, s0, events);
    var s, log := Run(cfg, s0, events).value, LogOf(cfg, s0, events);
    if i < |s.sinks| { assert SinkExact(log, ViewOf(cfg, s), i, s.sinks[i], Limits(s.publishers)); }
    if p < |s.profilers| { assert ProfilerExact(log, ViewOf(cfg, s), p, s.profilers[p]); }
    if q < |s.publishers| { assert PublisherExact(log, ViewOf(cfg, s), q, s.publishers[q]); }
  }

  /** Every calculator got this one more entry. */
  ghost predicate HandsOver(before: seq<seq<Entry>>, after: seq<seq<Entry>>, e: Entry) {
    |after| == |before| && forall c :: 0 <= c < |before| ==> after[c] == before[c] + [e]
  }

  /**
    The summary of an iteration hands every calculator of a sink exactly the messages that arrived at it,
    and the publications or acquisition times that go with them, and every profiler exactly its samples.
   */
  lemma {:induction false} IterationResult(cfg: Config, s0: State, events: seq<Event>, env: Env)
    requires Started(s0) && Run(cfg, s0, events).Ok? && Run(cfg, s0, events).value.phase == Summarize
    ensures var s, log := Run(cfg, s0, events).value, LogOf(cfg, s0, events);
            var done := Tick(cfg, s, env);
            && done.Ok? && |done.value.sinks| == |s.sinks| && |done.value.profilers| == |s.profilers|
            && (forall i :: 0 <= i < |s.sinks| ==>
                  HandsOver(s.sinks[i].histories, done.value.sinks[i].histories,
                            Entry(PublishedIn(log, i, s.sinks[i], Limits(s.publishers), s.round),
                                  During(cfg, s0, events, Arrivals(i), s.round))))
            && (forall p :: 0 <= p < |s.profilers| ==>
                  done.value.profilers[p].history
                  == s.profilers[p].history + [During(cfg, s0, events, Samples(p), s.round)])
  {
    RunExact(cfg, s0, events);
    var s, log := Run(cfg, s0, events).value, LogOf(cfg, s0, events);
    forall i | 0 <= i < |s.sinks|
      ensures s.sinks[i].received == log(Arrivals(i), s.round)
      ensures PublishedFor(s.sinks[i], s.publishers) == PublishedIn(log, i, s.sinks[i], Limits(s.publishers), s.round)
    {
      HandedOver(log, ViewOf(cfg, s), i, s.sinks[i], s);
    }
    forall p | 0 <= p < |s.profilers| ensures s.profilers[p].samples == log(Samples(p), s.round) {
      assert ProfilerExact(log, ViewOf(cfg, s), p, s.profilers[p]);
    }
  }

  lemma WiredSinks(log: Log, v: View, s0: State, s: State)
    requires SinksExact(log, v, s.sinks, Limits(s.publishers)) && SameWiring(s0, s) && !BeforeSetUp(v.phase)
    ensures forall i, c :: 0 <= i < |s.sinks| && 0 <= c < |s.sinks[i].histories| ==>
              HistoryExact(log, s.sinks[i].histories[c], i, s0.sinks[i], Limits(s0.publishers), v.results, v.first)
  {
    assert Limits(s.publishers) == Limits(s0.publishers);
    forall i, c | 0 <= i < |s.sinks| && 0 <= c < |s.sinks[i].histories|
      ensures HistoryExact(log, s.sinks[i].histories[c], i, s0.sinks[i], Limits(s0.publishers), v.results, v.first)
    {
      assert SinkExact(log, v, i, s.sinks[i], Limits(s.publishers));
      assert HistoryExact(log, s.sinks[i].histories[c], i, s.sinks[i], Limits(s0.publishers), v.results, v.first);
    }
  }

  /**
    When the test case is concluded the count is the configured number of iterations, and every history
    holds that many results. The j-th is made of exactly what happened in the j-th counted iteration,
    so the trial's result is not among them and nothing is lost.
   */
  lemma {:induction false} ConcludedHistories(cfg: Config, s0: State, events: seq<Event>)
    requires Started(s0) && Run(cfg, s0, events).Ok? && Run(cfg, s0, events).value.phase == Conclude
    ensures var s, log, first := Run(cfg, s0, events).value, LogOf(cfg, s0, events), 1 + TrialRounds(cfg);
            && s.count == cfg.iterations && SameWiring(s0, s)
            && (forall i, c :: 0 <= i < |s.sinks| && 0 <= c < |s.sinks[i].histories| ==>
                  HistoryExact(log, s.sinks[i].histories[c], i, s0.sinks[i], Limits(s0.publishers), s.count, first))
            && (forall p :: 0 <= p < |s.profilers| ==> ProfileExact(log, s.profilers[p].history, p, s.count, first))
  {
    var s, log, first := Run(cfg, s0, events).value, LogOf(cfg, s0, events), 1 + TrialRounds(cfg);
    assert Inv(cfg, s) by { RunInv(cfg, s0, events); }
    RunExact(cfg, s0, events);
    RunKeepsWiring(cfg, s0, events);
    WiredSinks(log, ViewOf(cfg, s), s0, s);
    forall p | 0 <= p < |s.profilers| ensures ProfileExact(log, s.profilers[p].history, p, s.count, first) {
      assert ProfilerExact(log, ViewOf(cfg, s), p, s.profilers[p]);
    }
  }
}
