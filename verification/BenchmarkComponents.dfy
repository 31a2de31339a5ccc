/**
  The components that the benchmark controller drives, as the objects they are: each method changes its
  object in place as the value-level model in `BenchmarkModel` says.
 */
module BenchmarkComponents {
  import opened Wrappers
  import opened BenchmarkModel

  class BenchmarkPublisher {
    var enabled: bool
    var published: seq<Stamp>
    const limit: nat

    ghost function Value(): Publisher
      reads this
    {
      Publisher(enabled, published, limit)
    }

    constructor (limit: nat)
      ensures Value() == Publisher(false, [], limit)
    {
      enabled, published, this.limit := false, [], limit;
    }

    /** The async scheduling term is set to EVENT_DONE or to WAIT. */
    method SetEnabled(enabled: bool)
      modifies this
      ensures Value() == EnablePublisher(old(Value()), enabled)
      ensures this.enabled == enabled && published == old(published)
    {
      this.enabled := enabled;
    }

    method ClearRecordedTimestamps()
      modifies this
      ensures Value() == ClearPublisher(old(Value()))
      ensures published == [] && enabled == old(enabled)
    {
      published := [];
    }

    /** One tick on a buffer of so many messages; a waiting publisher is not ticked. */
    method Tick(buffered: nat, round: nat, time: int)
      modifies this
      ensures Value() == PublishMessage(old(Value()), buffered, round, time)
      ensures !old(enabled) || buffered == 0 ==> unchanged(this)
      ensures old(enabled) && buffered > 0 && limit > 0 && |old(published)| >= limit ==>
                !enabled && published == old(published)
      ensures old(enabled) && buffered > 0 && (limit == 0 || |old(published)| < limit) ==>
                enabled && published == old(published) + [Stamp(round, time)]
    {
      if !enabled || buffered == 0 { return; }
      if limit != 0 && |published| >= limit {
        enabled := false;
      } else {
        published := published + [Stamp(round, time)];
      }
    }
  }

  class ResourceProfiler {
    var profiling: bool
    var samples: seq<Stamp>
    var history: seq<seq<Stamp>>

    ghost function Value(): Profiler
      reads this
    {
      Profiler(profiling, samples, history)
    }

    constructor ()
      ensures Value() == Profiler(false, [], [])
    {
      profiling, samples, history := false, [], [];
    }

    method Begin() returns (r: Result<(), Error>)
      modifies this
      ensures r == if old(profiling) then Err(ProfilerAlreadyActive) else Ok(())
      ensures Value() == if r.Ok? then BeginProfiler(old(Value())) else old(Value())
      ensures r.Ok? ==> profiling && samples == [] && history == old(history)
    {
      if profiling { return Err(ProfilerAlreadyActive); }
      samples := [];
      profiling := true;
      r := Ok(());
    }

    method End() returns (r: Result<(), Error>)
      modifies this
      ensures r == if old(profiling) then Ok(()) else Err(ProfilerAlreadyInactive)
      ensures Value() == EndProfiler(old(Value()))
      ensures !profiling && samples == old(samples) && history == old(history)
    {
      if !profiling { return Err(ProfilerAlreadyInactive); }
      profiling := false;
      r := Ok(());
    }

    method Reset()
      modifies this
      ensures Value() == ResetProfiler(old(Value()))
      ensures samples == [] && history == [] && profiling == old(profiling)
    {
      samples := [];
      history := [];
    }

    method Compute()
      modifies this
      ensures Value() == ComputeProfiler(old(Value()))
      ensures history == old(history) + [samples] && samples == old(samples) && profiling == old(profiling)
    {
      history := history + [samples];
    }

    /** The profiling thread takes a sample. */
    method Sample(round: nat, time: int)
      modifies this
      ensures Value() == TakeSample(old(Value()), round, time)
      ensures samples == (if profiling then old(samples) + [Stamp(round, time)] else old(samples))
      ensures profiling == old(profiling) && history == old(history)
    {
      if profiling {
        samples := samples + [Stamp(round, time)];
      }
    }
  }

  /** A calculator keeps one entry for every iteration it was asked to compute. */
  class PerformanceCalculator {
    var history: seq<Entry>

    constructor ()
      ensures history == []
    {
      history := [];
    }

    method Reset()
      modifies this
      ensures history == []
    {
      history := [];
    }

    method Compute(published: seq<Stamp>, received: seq<Stamp>)
      modifies this
      ensures history == old(history) + [Entry(published, received)]
    {
      history := history + [Entry(published, received)];
    }
  }

  ghost function Histories(calculators: seq<PerformanceCalculator>): (h: seq<seq<Entry>>)
    reads calculators
    ensures |h| == |calculators|
  {
    seq(|calculators|, c requires 0 <= c < |calculators| reads calculators => calculators[c].history)
  }

  ghost predicate Distinct<T>(xs: seq<T>) {
    forall j, k :: 0 <= j < k < |xs| ==> xs[j] != xs[k]
  }

  ghost function Handed(histories: seq<seq<Entry>>, published: seq<Stamp>, received: seq<Stamp>): (h: seq<seq<Entry>>)
    ensures |h| == |histories|
  {
    seq(|histories|, c requires 0 <= c < |histories| => histories[c] + [Entry(published, received)])
  }

  class BenchmarkSink {
    const useAcqtimes: bool
    const publisher: Option<nat>  // its place among the controller's publishers
    const calculators: seq<PerformanceCalculator>
    var recording: bool
    var received: seq<Stamp>
    var acqtimes: seq<Stamp>

    ghost function Value(): Sink
      reads this, calculators
    {
      Sink(recording, received, acqtimes, useAcqtimes, publisher, Histories(calculators))
    }

    constructor (useAcqtimes: bool, publisher: Option<nat>, calculators: seq<PerformanceCalculator>)
      ensures Value() == Sink(false, [], [], useAcqtimes, publisher, Histories(calculators))
      ensures this.calculators == calculators
    {
      this.useAcqtimes, this.publisher, this.calculators := useAcqtimes, publisher, calculators;
      recording, received, acqtimes := false, [], [];
    }

    /** A message arrives. */
    method Tick(round: nat, time: int, acqtime: int)
      modifies this
      ensures Value() == ReceiveMessage(old(Value()), round, time, acqtime)
      ensures received == (if recording then old(received) + [Stamp(round, time)] else old(received))
      ensures acqtimes == (if recording && useAcqtimes then old(acqtimes) + [Stamp(round, acqtime)] else old(acqtimes))
      ensures recording == old(recording)
    {
      if recording {
        received := received + [Stamp(round, time)];
        if useAcqtimes {
          acqtimes := acqtimes + [Stamp(round, acqtime)];
        }
      }
    }

    method ClearRecordedTimestamps()
      modifies this
      ensures Value() == ClearSink(old(Value()))
      ensures received == [] && acqtimes == [] && recording == old(recording)
    {
      received := [];
      acqtimes := [];
    }

    method Begin()
      modifies this
      ensures Value() == BeginSink(old(Value()))
      ensures recording && received == [] && acqtimes == []
    {
      ClearRecordedTimestamps();
      recording := true;
    }

    method End()
      modifies this
      ensures Value() == EndSink(old(Value()))
      ensures !recording && received == old(received) && acqtimes == old(acqtimes)
    {
      recording := false;
    }

    method Reset()
      requires Distinct(calculators)
      modifies this, calculators
      ensures Value() == ResetSink(old(Value()))
      ensures received == [] && acqtimes == [] && recording == old(recording)
      ensures forall c :: 0 <= c < |calculators| ==> calculators[c].history == []
    {
      ClearRecordedTimestamps();
      var c := 0;
      while c < |calculators|
        invariant 0 <= c <= |calculators|
        invariant forall k :: 0 <= k < c ==> calculators[k].history == []
        invariant recording == old(recording) && received == acqtimes == []
      {
        calculators[c].Reset();
        c := c + 1;
      }
      assert Value().histories == ResetSink(old(Value())).histories;
    }

    /** Hands every calculator the same two lists. */
    method Compute(published: seq<Stamp>)
      requires Distinct(calculators)
      modifies calculators
      ensures Value() == old(Value()).(histories := Handed(old(Value()).histories, published, received))
      ensures forall c :: 0 <= c < |calculators| ==>
                calculators[c].history == old(calculators[c].history) + [Entry(published, received)]
    {
      var c := 0;
      while c < |calculators|
        invariant 0 <= c <= |calculators|
        invariant forall k :: 0 <= k < c ==>
                    calculators[k].history == old(calculators[k].history) + [Entry(published, received)]
        invariant forall k :: c <= k < |calculators| ==> calculators[k].history == old(calculators[k].history)
      {
        calculators[c].Compute(published, received);
        c := c + 1;
      }
      assert Value().histories == Handed(old(Value()).histories, published, received);
    }
  }

  // ---------------------------------------------------------------------------------------------
  // All components of a kind
  // ---------------------------------------------------------------------------------------------

  ghost function AllCalculators(sinks: seq<BenchmarkSink>): set<PerformanceCalculator> {
    set i, c | 0 <= i < |sinks| && 0 <= c < |sinks[i].calculators| :: sinks[i].calculators[c]
  }

  /** No sink is listed twice, and each calculator belongs to one sink. */
  ghost predicate Separate(sinks: seq<BenchmarkSink>) {
    && Distinct(sinks)
    && (forall i :: 0 <= i < |sinks| ==> Distinct(sinks[i].calculators))
    && (forall i, j, c :: 0 <= i < |sinks| && 0 <= j < |sinks| && i != j && 0 <= c < |sinks[i].calculators| ==>
          sinks[i].calculators[c] !in sinks[j].calculators)
  }

  ghost function SinkValues(sinks: seq<BenchmarkSink>): (r: seq<Sink>)
    reads sinks, AllCalculators(sinks)
    ensures |r| == |sinks| && forall i :: 0 <= i < |sinks| ==> r[i] == sinks[i].Value()
  {
    seq(|sinks|, i requires 0 <= i < |sinks| reads sinks, AllCalculators(sinks) => sinks[i].Value())
  }

  ghost function ProfilerValues(profilers: seq<ResourceProfiler>): (r: seq<Profiler>)
    reads profilers
    ensures |r| == |profilers| && forall p :: 0 <= p < |profilers| ==> r[p] == profilers[p].Value()
  {
    seq(|profilers|, p requires 0 <= p < |profilers| reads profilers => profilers[p].Value())
  }

  ghost function PublisherValues(publishers: seq<BenchmarkPublisher>): (r: seq<Publisher>)
    reads publishers
    ensures |r| == |publishers| && forall q :: 0 <= q < |publishers| ==> r[q] == publishers[q].Value()
  {
    seq(|publishers|, q requires 0 <= q < |publishers| reads publishers => publishers[q].Value())
  }
}
