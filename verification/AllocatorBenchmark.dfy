/**
  The allocator benchmark: a codelet that allocates a number of blocks one tick at a time, frees them
  again in the same order, and does so for a number of iterations; and the sink that records when.
 */
module AllocatorBenchmarks {
  import opened Wrappers

  datatype Kind = Allocate | Free

  datatype Error = CountMismatch | NoBufferToFree | UnknownMessage

  datatype Config = Config(blocks: int, iterations: int)

  datatype State = State(pointers: seq<nat>, count: int, iteration: int, kind: Kind)

  /** What a tick did with the allocator; an idle tick only starts the iterations over. */
  datatype Action = Allocated(pointer: nat) | Freed(pointer: nat) | Idle

  const INITIAL := State([], 0, 0, Allocate)

  /** One tick, where `block` is what the allocator returns if it is asked. */
  function Tick(cfg: Config, s: State, block: nat): Result<(State, Action), Error> {
    if s.iteration < cfg.iterations then
      if s.count < cfg.blocks && s.kind == Allocate then
        if |s.pointers| != s.count then Err(CountMismatch)
        else Ok((FinishIteration(s.(pointers := s.pointers + [block], count := s.count + 1)), Allocated(block)))
      else if s.pointers == [] then Err(NoBufferToFree)
      else Ok((FinishIteration(State(s.pointers[1..], s.count - 1, s.iteration, Free)), Freed(s.pointers[0])))
    else Ok((s.(iteration := 0), Idle))
  }

  function FinishIteration(s: State): State {
    if s.count == 0 && s.kind == Free then State([], 0, s.iteration + 1, Allocate) else s
  }

  /** A run: the state, the pointers allocated and freed so far in order, and what every tick did. */
  datatype Trace = Trace(s: State, taken: seq<nat>, freed: seq<nat>, actions: seq<Action>)

  function Record(tr: Trace, s: State, a: Action): Trace {
    Trace(s,
          if a.Allocated? then tr.taken + [a.pointer] else tr.taken,
          if a.Freed? then tr.freed + [a.pointer] else tr.freed,
          tr.actions + [a])
  }

  /** The run over one tick per pointer the allocator has ready. */
  function Run(cfg: Config, ready: seq<nat>): Result<Trace, Error> {
    if ready == [] then Ok(Trace(INITIAL, [], [], []))
    else
      match Run(cfg, ready[..|ready| - 1])
      case Err(e) => Err(e)
      case Ok(tr) =>
        match Tick(cfg, tr.s, ready[|ready| - 1])
        case Err(e) => Err(e)
        case Ok((s, a)) => Ok(Record(tr, s, a))
  }

  // ---------------------------------------------------------------------------------------------
  // The clock: where in its cycle the benchmark is after so many ticks
  // ---------------------------------------------------------------------------------------------

  /** The cycle, the iteration in it, and the tick in the iteration. */
  datatype Clock = Clock(cycle: nat, iteration: nat, tick: nat)

  predicate Runs(cfg: Config) { cfg.blocks >= 1 && cfg.iterations >= 0 }

  function Next(cfg: Config, c: Clock): Clock {
    if c.iteration >= cfg.iterations then Clock(c.cycle + 1, 0, 0)
    else if c.tick + 1 >= 2 * cfg.blocks then Clock(c.cycle, c.iteration + 1, 0)
    else Clock(c.cycle, c.iteration, c.tick + 1)
  }

  function After(cfg: Config, c: Clock, ticks: nat): Clock
    decreases ticks
  {
    if ticks == 0 then c else Next(cfg, After(cfg, c, ticks - 1))
  }

  /** Blocks held at a tick of an iteration: they pile up one by one and go one by one. */
  function Held(cfg: Config, tick: nat): int {
    if tick <= cfg.blocks then tick else 2 * cfg.blocks - tick
  }

  /** Allocations made up to a point of the clock. */
  function Allocations(cfg: Config, c: Clock): int
    requires Runs(cfg)
  {
    c.cycle * (cfg.blocks * cfg.iterations) + cfg.blocks * c.iteration
    + if c.tick <= cfg.blocks then c.tick else cfg.blocks
  }

  ghost predicate Agrees(cfg: Config, tr: Trace, c: Clock)
    requires Runs(cfg)
  {
    && c.iteration <= cfg.iterations && c.tick < 2 * cfg.blocks
    && (c.iteration == cfg.iterations ==> c.tick == 0)
    && tr.s.iteration == c.iteration
    && |tr.s.pointers| == tr.s.count == Held(cfg, c.tick)
    && tr.s.kind == (if c.tick <= cfg.blocks then Allocate else Free)
    && tr.taken == tr.freed + tr.s.pointers
    && |tr.taken| == Allocations(cfg, c)
  }

  lemma AllocationsStep(cfg: Config, c: Clock)
    requires Runs(cfg) && c.iteration <= cfg.iterations && c.tick < 2 * cfg.blocks
    requires c.iteration == cfg.iterations ==> c.tick == 0
    ensures Allocations(cfg, Next(cfg, c)) ==
            Allocations(cfg, c) + if c.iteration < cfg.iterations && c.tick < cfg.blocks then 1 else 0
  {
    if c.iteration == cfg.iterations {
      assert (c.cycle + 1) * (cfg.blocks * cfg.iterations)
             == c.cycle * (cfg.blocks * cfg.iterations) + cfg.blocks * cfg.iterations;
    } else {
      assert cfg.blocks * (c.iteration + 1) == cfg.blocks * c.iteration + cfg.blocks;
    }
  }

  lemma TickAgrees(cfg: Config, tr: Trace, c: Clock, block: nat)
    requires Runs(cfg) && Agrees(cfg, tr, c)
    ensures Tick(cfg, tr.s, block).Ok?
    ensures var (s, a) := Tick(cfg, tr.s, block).value; Agrees(cfg, Record(tr, s, a), Next(cfg, c))
  {
    AllocationsStep(cfg, c);
    var (s, a) := Tick(cfg, tr.s, block).value;
    if a.Allocated? {
      assert tr.freed + tr.s.pointers + [block] == tr.freed + (tr.s.pointers + [block]);
    } else if a.Freed? {
      assert tr.s.pointers == [tr.s.pointers[0]] + tr.s.pointers[1..];
      assert tr.freed + tr.s.pointers == tr.freed + [tr.s.pointers[0]] + tr.s.pointers[1..];
    }
  }

  /** With at least one block every run succeeds and keeps to the clock. */
  lemma {:induction false} RunFollowsClock(cfg: Config, ready: seq<nat>)
    requires Runs(cfg)
    ensures Run(cfg, ready).Ok? && Agrees(cfg, Run(cfg, ready).value, After(cfg, Clock(0, 0, 0), |ready|))
  {
    if ready != [] {
      RunFollowsClock(cfg, ready[..|ready| - 1]);
      var before, last := ready[..|ready| - 1], ready[|ready| - 1];
      TickAgrees(cfg, Run(cfg, before).value, After(cfg, Clock(0, 0, 0), |before|), last);
    }
  }

  // ---------------------------------------------------------------------------------------------
  // The period
  // ---------------------------------------------------------------------------------------------

  lemma {:induction false} AfterAdd(cfg: Config, c: Clock, m: nat, n: nat)
    ensures After(cfg, c, m + n) == After(cfg, After(cfg, c, m), n)
    decreases n
  {
    if n > 0 { AfterAdd(cfg, c, m, n - 1); }
  }

  lemma {:induction false} IterationTicks(cfg: Config, c: Clock, n: nat)
    requires Runs(cfg) && c.iteration < cfg.iterations && c.tick == 0 && n <= 2 * cfg.blocks
    ensures After(cfg, c, n) == if n < 2 * cfg.blocks then Clock(c.cycle, c.iteration, n)
                                else Clock(c.cycle, c.iteration + 1, 0)
    decreases n
  {
    if n > 0 { IterationTicks(cfg, c, n - 1); }
  }

  lemma {:induction false} IterationsTicks(cfg: Config, c: Clock, k: nat)
    requires Runs(cfg) && c.iteration == c.tick == 0 && k <= cfg.iterations
    ensures 2 * cfg.blocks * k >= 0
    ensures After(cfg, c, 2 * cfg.blocks * k) == Clock(c.cycle, k, 0)
    decreases k
  {
    if k > 0 {
      IterationsTicks(cfg, c, k - 1);
      AfterAdd(cfg, c, 2 * cfg.blocks * (k - 1), 2 * cfg.blocks);
      IterationTicks(cfg, Clock(c.cycle, k - 1, 0), 2 * cfg.blocks);
      assert 2 * cfg.blocks * (k - 1) + 2 * cfg.blocks == 2 * cfg.blocks * k;
    }
  }

  function Period(cfg: Config): (p: nat)
    requires Runs(cfg)
    ensures p >= 1
  {
    IterationsTicks(cfg, Clock(0, 0, 0), cfg.iterations);
    2 * cfg.blocks * cfg.iterations + 1
  }

  /** The clock is at the start of a cycle after every 2 * blocks * iterations + 1 ticks. */
  lemma {:induction false} CycleStarts(cfg: Config, cycles: nat)
    requires Runs(cfg)
    ensures cycles * Period(cfg) >= 0
    ensures After(cfg, Clock(0, 0, 0), cycles * Period(cfg)) == Clock(cycles, 0, 0)
  {
    if cycles > 0 {
      CycleStarts(cfg, cycles - 1);
      assert cycles * Period(cfg) == (cycles - 1) * Period(cfg) + Period(cfg);
      AfterAdd(cfg, Clock(0, 0, 0), (cycles - 1) * Period(cfg), Period(cfg));
      IterationsTicks(cfg, Clock(cycles - 1, 0, 0), cfg.iterations);
    }
  }

  /** After whole cycles the state is the initial one again, and everything allocated has been freed, in order. */
  lemma WholeCycles(cfg: Config, ready: seq<nat>, cycles: nat)
    requires Runs(cfg) && |ready| == cycles * Period(cfg)
    ensures Run(cfg, ready).Ok?
    ensures var tr := Run(cfg, ready).value;
            && tr.s == INITIAL && tr.taken == tr.freed
            && |tr.taken| == cycles * (cfg.blocks * cfg.iterations)
  {
    RunFollowsClock(cfg, ready);
    CycleStarts(cfg, cycles);
    assert Run(cfg, ready).value.s.pointers == [];
  }

  lemma AfterThree(cfg: Config, c: Clock, l: nat, m: nat, n: nat)
    ensures After(cfg, c, l + m + n) == After(cfg, After(cfg, After(cfg, c, l), m), n)
  {
    AfterAdd(cfg, c, l, m);
    AfterAdd(cfg, c, l + m, n);
  }

  /** The clock at tick `k` of iteration `it` of a cycle; `it == cfg.iterations` is the tick that ends the cycle. */
  lemma {:induction false} ClockAt(cfg: Config, cycles: nat, it: nat, k: nat)
    requires Runs(cfg) && it <= cfg.iterations && (if it == cfg.iterations then k == 0 else k < 2 * cfg.blocks)
    ensures cycles * Period(cfg) >= 0 && 2 * cfg.blocks * it >= 0
    ensures After(cfg, Clock(0, 0, 0), cycles * Period(cfg) + 2 * cfg.blocks * it + k) == Clock(cycles, it, k)
  {
    CycleStarts(cfg, cycles);
    IterationsTicks(cfg, Clock(cycles, 0, 0), it);
    AfterThree(cfg, Clock(0, 0, 0), cycles * Period(cfg), 2 * cfg.blocks * it, k);
    if it < cfg.iterations { IterationTicks(cfg, Clock(cycles, it, 0), k); }
  }

  /**
    The whole schedule: after `cycles` cycles, `it` iterations and `k` ticks, the next tick allocates a block
    in the first half of an iteration, frees the oldest one held in the second half, and does neither once
    in a cycle, after its iterations.
   */
  lemma {:induction false} ActionAt(cfg: Config, ready: seq<nat>, cycles: nat, it: nat, k: nat, block: nat)
    requires cfg.blocks >= 1 && cfg.iterations >= 0 && it <= cfg.iterations
    requires if it == cfg.iterations then k == 0 else k < 2 * cfg.blocks
    requires |ready| == cycles * (2 * cfg.blocks * cfg.iterations + 1) + 2 * cfg.blocks * it + k
    ensures Run(cfg, ready).Ok? && Run(cfg, ready + [block]).Ok?
    ensures var tr, after := Run(cfg, ready).value, Run(cfg, ready + [block]).value;
            if it == cfg.iterations then after.taken == tr.taken && after.freed == tr.freed
            else if k < cfg.blocks then after.taken == tr.taken + [block] && after.freed == tr.freed
            else |tr.freed| < |tr.taken| && after.taken == tr.taken && after.freed == tr.freed + [tr.taken[|tr.freed|]]
  {
    ClockAt(cfg, cycles, it, k);
    RunFollowsClock(cfg, ready);
    RunFollowsClock(cfg, ready + [block]);
    assert (ready + [block])[..|ready|] == ready;
    var tr := Run(cfg, ready).value;
    var (s, a) := Tick(cfg, tr.s, block).value;
    assert Run(cfg, ready + [block]).value == Record(tr, s, a);
  }

  /** At every tick the blocks freed are the first ones allocated, and no more than `blocks` are held. */
  lemma FirstInFirstOut(cfg: Config, ready: seq<nat>)
    requires Runs(cfg)
    ensures Run(cfg, ready).Ok?
    ensures var tr := Run(cfg, ready).value;
            tr.freed <= tr.taken && |tr.taken| - |tr.freed| == tr.s.count <= cfg.blocks
  {
    RunFollowsClock(cfg, ready);
  }

  /** Every run succeeds exactly when there is a block to allocate or no iteration to run. */
  lemma RunsSucceedExactlyWhen(cfg: Config)
    ensures (forall ready :: Run(cfg, ready).Ok?) <==> cfg.blocks >= 1 || cfg.iterations <= 0
  {
    if cfg.blocks >= 1 || cfg.iterations <= 0 {
      forall ready ensures Run(cfg, ready).Ok? {
        if cfg.iterations <= 0 { IdleRun(cfg, ready); } else { RunFollowsClock(cfg, ready); }
      }
    } else {
      assert [0][..0] == [];
      assert Run(cfg, []) == Ok(Trace(INITIAL, [], [], []));
      assert Run(cfg, [0]) == Err(NoBufferToFree);
    }
  }

  lemma {:induction false} IdleRun(cfg: Config, ready: seq<nat>)
    requires cfg.iterations <= 0
    ensures Run(cfg, ready).Ok? && Run(cfg, ready).value.s == INITIAL
  {
    if ready != [] { IdleRun(cfg, ready[..|ready| - 1]); }
  }

  // ---------------------------------------------------------------------------------------------
  // The sink
  // ---------------------------------------------------------------------------------------------

  /** A message carries what the tick did and when the tick began and ended; other messages carry neither. */
  datatype Message = Message(kind: Option<Kind>, acqtime: int, pubtime: int)

  datatype Lists = Lists(allocateAcq: seq<int>, allocatePub: seq<int>, freeAcq: seq<int>, freePub: seq<int>)

  datatype SinkState = SinkState(benchmarking: bool, lists: Lists)

  const EMPTY_LISTS := Lists([], [], [], [])

  function Receive(s: SinkState, m: Message): Result<SinkState, Error> {
    if !s.benchmarking then Ok(s)
    else
      match m.kind
      case None => Err(UnknownMessage)
      case Some(Allocate) =>
        Ok(s.(lists := s.lists.(allocateAcq := s.lists.allocateAcq + [m.acqtime],
                                allocatePub := s.lists.allocatePub + [m.pubtime])))
      case Some(Free) =>
        Ok(s.(lists := s.lists.(freeAcq := s.lists.freeAcq + [m.acqtime], freePub := s.lists.freePub + [m.pubtime])))
  }

  ghost predicate Paired(l: Lists) { |l.allocateAcq| == |l.allocatePub| && |l.freeAcq| == |l.freePub| }

  function ReceiveAll(s: SinkState, ms: seq<Message>): Result<SinkState, Error> {
    if ms == [] then Ok(s)
    else
      match ReceiveAll(s, ms[..|ms| - 1])
      case Err(e) => Err(e)
      case Ok(s') => Receive(s', ms[|ms| - 1])
  }

  /** The messages of a run are those of its ticks that used the allocator, in order. */
  ghost predicate MessagesOf(ms: seq<Message>, actions: seq<Action>)
    decreases |actions|
  {
    if actions == [] then ms == []
    else
      var last := actions[|actions| - 1];
      var before := actions[..|actions| - 1];
      if last.Idle? then MessagesOf(ms, before)
      else
        && ms != []
        && ms[|ms| - 1].kind == Some(if last.Allocated? then Allocate else Free)
        && MessagesOf(ms[..|ms| - 1], before)
  }

  function CountActions(actions: seq<Action>, allocations: bool): nat {
    if actions == [] then 0
    else
      var last := actions[|actions| - 1];
      CountActions(actions[..|actions| - 1], allocations)
      + if (if allocations then last.Allocated? else last.Freed?) then 1 else 0
  }

  /** The times when the ticks behind the messages of a kind began, or when they ended, in order. */
  function TimesOf(ms: seq<Message>, kind: Kind, began: bool): seq<int> {
    if ms == [] then []
    else
      var last := ms[|ms| - 1];
      TimesOf(ms[..|ms| - 1], kind, began)
      + if last.kind == Some(kind) then [if began then last.acqtime else last.pubtime] else []
  }

  /** The lists once the messages are in: each grows by the times of the messages of its kind. */
  function Recorded(l: Lists, ms: seq<Message>): Lists {
    Lists(l.allocateAcq + TimesOf(ms, Allocate, true), l.allocatePub + TimesOf(ms, Allocate, false),
          l.freeAcq + TimesOf(ms, Free, true), l.freePub + TimesOf(ms, Free, false))
  }

  /** A sink takes in any messages of the two kinds: all of them while it is benchmarking, and none otherwise. */
  lemma {:induction false} ReceivesAll(s: SinkState, ms: seq<Message>)
    requires forall k :: 0 <= k < |ms| ==> ms[k].kind.Some?
    ensures ReceiveAll(s, ms) == Ok(if s.benchmarking then s.(lists := Recorded(s.lists, ms)) else s)
  {
    if ms == [] {
      assert Recorded(s.lists, ms) == s.lists;
    } else {
      var before, last := ms[..|ms| - 1], ms[|ms| - 1];
      ReceivesAll(s, before);
      if s.benchmarking { OneMoreRecorded(s.lists, before, last, ms); }
    }
  }

  /** And it fails exactly on a message of neither kind, while it is benchmarking. */
  lemma {:induction false} RejectsUnknown(s: SinkState, ms: seq<Message>)
    ensures ReceiveAll(s, ms) == Err(UnknownMessage) <==>
            s.benchmarking && exists k :: 0 <= k < |ms| && ms[k].kind == None
    ensures ReceiveAll(s, ms).Ok? <==> !s.benchmarking || forall k :: 0 <= k < |ms| ==> ms[k].kind != None
    ensures ReceiveAll(s, ms).Ok? ==> ReceiveAll(s, ms).value.benchmarking == s.benchmarking
  {
    if ms != [] { RejectsUnknown(s, ms[..|ms| - 1]); }
  }

  lemma OneMoreRecorded(l: Lists, before: seq<Message>, last: Message, ms: seq<Message>)
    requires ms != [] && before == ms[..|ms| - 1] && last == ms[|ms| - 1] && last.kind.Some?
    ensures Receive(SinkState(true, Recorded(l, before)), last) == Ok(SinkState(true, Recorded(l, ms)))
  {
    var kind := last.kind.value;
    Appended(l.allocateAcq, TimesOf(before, Allocate, true), last.acqtime);
    Appended(l.allocatePub, TimesOf(before, Allocate, false), last.pubtime);
    Appended(l.freeAcq, TimesOf(before, Free, true), last.acqtime);
    Appended(l.freePub, TimesOf(before, Free, false), last.pubtime);
  }

  lemma Appended(a: seq<int>, b: seq<int>, x: int)
    ensures a + (b + [x]) == a + b + [x] && b + [] == b
  {
  }

  lemma {:induction false} TimesPerKind(ms: seq<Message>, actions: seq<Action>)
    requires MessagesOf(ms, actions)
    ensures forall k :: 0 <= k < |ms| ==> ms[k].kind.Some?
    ensures |TimesOf(ms, Allocate, true)| == |TimesOf(ms, Allocate, false)| == CountActions(actions, true)
    ensures |TimesOf(ms, Free, true)| == |TimesOf(ms, Free, false)| == CountActions(actions, false)
    decreases |actions|
  {
    if actions != [] {
      var last := actions[|actions| - 1];
      TimesPerKind(if last.Idle? then ms else ms[..|ms| - 1], actions[..|actions| - 1]);
    }
  }

  /**
    A sink that is benchmarking records every message of a run: each of its lists grows by the acquisition
    or publication times of the messages of its kind, in order, one for every tick of that kind.
   */
  lemma SinkRecordsAll(s: SinkState, ms: seq<Message>, actions: seq<Action>)
    requires s.benchmarking && MessagesOf(ms, actions)
    ensures ReceiveAll(s, ms) == Ok(SinkState(true, Recorded(s.lists, ms)))
    ensures |Recorded(s.lists, ms).allocateAcq| == |s.lists.allocateAcq| + CountActions(actions, true)
    ensures |Recorded(s.lists, ms).allocatePub| == |s.lists.allocatePub| + CountActions(actions, true)
    ensures |Recorded(s.lists, ms).freeAcq| == |s.lists.freeAcq| + CountActions(actions, false)
    ensures |Recorded(s.lists, ms).freePub| == |s.lists.freePub| + CountActions(actions, false)
  {
    TimesPerKind(ms, actions);
    ReceivesAll(s, ms);
  }

  lemma {:induction false} RunCountsActions(cfg: Config, ready: seq<nat>)
    requires Run(cfg, ready).Ok?
    ensures var tr := Run(cfg, ready).value;
            CountActions(tr.actions, true) == |tr.taken| && CountActions(tr.actions, false) == |tr.freed|
  {
    if ready != [] {
      var before := ready[..|ready| - 1];
      RunCountsActions(cfg, before);
      var tr, last := Run(cfg, ready).value, Run(cfg, before).value;
      assert tr.actions[..|tr.actions| - 1] == last.actions;
    }
  }

  /** Once all messages of whole cycles are in, all four lists are equally long: one entry per block and iteration. */
  lemma SinkAfterWholeCycles(cfg: Config, ready: seq<nat>, cycles: nat, ms: seq<Message>)
    requires Runs(cfg) && |ready| == cycles * Period(cfg)
    requires Run(cfg, ready).Ok? && MessagesOf(ms, Run(cfg, ready).value.actions)
    ensures ReceiveAll(SinkState(true, EMPTY_LISTS), ms).Ok?
    ensures var l := ReceiveAll(SinkState(true, EMPTY_LISTS), ms).value.lists;
            |l.allocateAcq| == |l.allocatePub| == |l.freeAcq| == |l.freePub| == cycles * (cfg.blocks * cfg.iterations)
  {
    WholeCycles(cfg, ready, cycles);
    RunCountsActions(cfg, ready);
    SinkRecordsAll(SinkState(true, EMPTY_LISTS), ms, Run(cfg, ready).value.actions);
  }

  // ---------------------------------------------------------------------------------------------
  // The codelets as they run
  // ---------------------------------------------------------------------------------------------

  class BenchmarkAllocator {
    const cfg: Config
    var pointers: seq<nat>
    var count: int
    var iteration: int
    var kind: Kind

    constructor (cfg: Config)
      ensures Snapshot() == INITIAL && this.cfg == cfg
    {
      this.cfg := cfg;
      pointers, count, iteration, kind := [], 0, 0, Allocate;
    }

    ghost function Snapshot(): State
      reads this
    {
      State(pointers, count, iteration, kind)
    }

    method TickOnce(block: nat) returns (r: Result<Action, Error>)
      modifies this
      ensures match Tick(cfg, old(Snapshot()), block)
              case Ok((s, a)) => r == Ok(a) && Snapshot() == s
              case Err(e) => r == Err(e)
    {
      if iteration < cfg.iterations {
        if count < cfg.blocks && kind == Allocate {
          if |pointers| != count { return Err(CountMismatch); }
          r := Ok(Allocated(block));
          pointers := pointers + [block];
          count := count + 1;
        } else {
          kind := Free;
          if |pointers| == 0 { return Err(NoBufferToFree); }
          r := Ok(Freed(pointers[0]));
          pointers := pointers[1..];
          count := count - 1;
        }
        if count == 0 && kind == Free {
          iteration := iteration + 1;
          kind := Allocate;
          pointers := [];
        }
      } else {
        iteration := 0;
        r := Ok(Idle);
      }
    }
  }

  class BenchmarkAllocatorSink {
    var benchmarking: bool
    var lists: Lists

    /** A sink benchmarks from its initialization on. */
    constructor ()
      ensures benchmarking && lists == EMPTY_LISTS
    {
      benchmarking, lists := true, EMPTY_LISTS;
    }

    method TickOnce(m: Message) returns (r: Result<(), Error>)
      modifies this`lists
      ensures match Receive(SinkState(benchmarking, old(lists)), m)
              case Ok(s) => r == Ok(()) && lists == s.lists
              case Err(e) => r == Err(e) && lists == old(lists)
      ensures Paired(old(lists)) ==> Paired(lists)
      ensures r.Err? <==> benchmarking && m.kind == None
      ensures !benchmarking || r.Err? ==> lists == old(lists)
      ensures benchmarking && m.kind == Some(Allocate) ==>
                && lists.allocateAcq == old(lists).allocateAcq + [m.acqtime]
                && lists.allocatePub == old(lists).allocatePub + [m.pubtime]
                && lists.freeAcq == old(lists).freeAcq && lists.freePub == old(lists).freePub
      ensures benchmarking && m.kind == Some(Free) ==>
                && lists.freeAcq == old(lists).freeAcq + [m.acqtime]
                && lists.freePub == old(lists).freePub + [m.pubtime]
                && lists.allocateAcq == old(lists).allocateAcq && lists.allocatePub == old(lists).allocatePub
    {
      if benchmarking {
        match m.kind {
          case None => return Err(UnknownMessage);
          case Some(Allocate) =>
            lists := lists.(allocateAcq := lists.allocateAcq + [m.acqtime],
                            allocatePub := lists.allocatePub + [m.pubtime]);
          case Some(Free) =>
            lists := lists.(freeAcq := lists.freeAcq + [m.acqtime], freePub := lists.freePub + [m.pubtime]);
        }
      }
      r := Ok(());
    }

    method Begin()
      modifies this
      ensures benchmarking && lists == EMPTY_LISTS
    {
      ClearRecordedTimestamps();
      benchmarking := true;
    }

    method End()
      modifies this`benchmarking
      ensures !benchmarking
    {
      benchmarking := false;
    }

    method ClearRecordedTimestamps()
      modifies this`lists
      ensures lists == EMPTY_LISTS
    {
      lists := EMPTY_LISTS;
    }
  }
}
