/**
  Up to which capacity `UniqueIndexMap` keeps what it promises. `initialize` accepts every capacity up to
  2^32. The runs here assume nothing about the table, so they say what happens at the last one as well.
 */
module UidCapacity {
  import opened Wrappers
  import opened UidTables

  const FULL: nat := 0x1_0000_0000

  /** A table, the uids returned by `emplace` so far, and those given to successful calls of `erase`. */
  datatype RawTrace<T> = RawTrace(t: Table<T>, issued: seq<Uid>, erased: set<Uid>)

  /** One call. The guard of `Emplace` is never what decides it (see `HeadStaysInRange`). */
  ghost function RawStep<T>(tr: RawTrace<T>, op: Op<T>): (after: RawTrace<T>)
    requires |tr.t.data| == |tr.t.uids|
    ensures |after.t.data| == |after.t.uids| == |tr.t.uids|
  {
    match op
    case EmplaceOp(item) =>
      if !HeadInRange(tr.t) then tr
      else
        var (t, r) := Emplace(tr.t, item);
        if r.Err? then tr else RawTrace(t, tr.issued + [r.value], tr.erased)
    case EraseOp(uid) =>
      var (t, r) := Erase(tr.t, uid);
      if r.Err? then tr else RawTrace(t, tr.issued, tr.erased + {uid})
  }

  /** The state after any sequence of calls on a freshly initialized container of any capacity. */
  ghost function RawRun<T>(capacity: nat, ops: seq<Op<T>>): (tr: RawTrace<T>)
    ensures |tr.t.data| == |tr.t.uids| == capacity
  {
    if ops == [] then RawTrace(InitialTable(capacity), [], {})
    else RawStep(RawRun(capacity, ops[..|ops| - 1]), ops[|ops| - 1])
  }

  lemma RawRunAppend<T>(capacity: nat, ops: seq<Op<T>>, op: Op<T>)
    ensures RawRun(capacity, ops + [op]) == RawStep(RawRun(capacity, ops), op)
  {
    assert (ops + [op])[..|ops + [op]| - 1] == ops;
  }

  /** Below 2^32 these are the runs of which the invariant is proved. */
  lemma {:induction false} RawRunIsRun<T>(capacity: nat, ops: seq<Op<T>>)
    requires capacity < FULL
    ensures var tr := Run(capacity, ops); RawRun(capacity, ops) == RawTrace(tr.t, tr.issued, tr.erased)
  {
    if ops != [] {
      RawRunIsRun(capacity, ops[..|ops| - 1]);
    }
  }

  /** No call ever reads or writes outside the table. */
  lemma {:induction false} HeadStaysInRange<T>(capacity: nat, ops: seq<Op<T>>)
    requires capacity <= FULL
    ensures HeadInRange(RawRun(capacity, ops).t)
  {
    if capacity < FULL {
      RawRunIsRun(capacity, ops);
    } else {
      FullWordsInRange(ops);
    }
  }

  ghost predicate WordsInRange(uids: seq<Uid>, next: Uid) {
    next.index < FULL && forall i :: 0 <= i < |uids| ==> uids[i].index < FULL
  }

  lemma {:induction false} FullWordsInRange<T>(ops: seq<Op<T>>)
    ensures WordsInRange(RawRun(FULL, ops).t.uids, RawRun(FULL, ops).t.next)
  {
    if ops != [] {
      FullWordsInRange(ops[..|ops| - 1]);
      StepKeepsWordsInRange(RawRun(FULL, ops[..|ops| - 1]), ops[|ops| - 1]);
    }
  }

  lemma StepKeepsWordsInRange<T>(tr: RawTrace<T>, op: Op<T>)
    requires |tr.t.data| == |tr.t.uids| == FULL && WordsInRange(tr.t.uids, tr.t.next)
    ensures WordsInRange(RawStep(tr, op).t.uids, RawStep(tr, op).t.next)
  {
  }

  // ---------------------------------------------------------------------------------------------
  // The promises
  // ---------------------------------------------------------------------------------------------

  /** No two successful calls of `emplace` return the same uid. */
  ghost predicate NeverReused<T(!new)>(capacity: nat) {
    forall ops: seq<Op<T>>, j, k :: 0 <= j < k < |RawRun(capacity, ops).issued| ==>
      RawRun(capacity, ops).issued[j] != RawRun(capacity, ops).issued[k]
  }

  /** A uid that has been erased is not valid. */
  ghost predicate ErasedInvalid<T(!new)>(capacity: nat) {
    forall ops: seq<Op<T>>, uid :: uid in RawRun(capacity, ops).erased ==> !IsValid(RawRun(capacity, ops).t.uids, uid)
  }

  /** The word of a slot that holds no object is not valid, so `find` compares objects only. */
  ghost predicate EmptyInvalid<T(!new)>(capacity: nat) {
    forall ops: seq<Op<T>>, i :: 0 <= i < capacity && RawRun(capacity, ops).t.data[i] == None ==>
      !IsValid(RawRun(capacity, ops).t.uids, RawRun(capacity, ops).t.uids[i])
  }

  lemma DistinctBelowFull<T>(capacity: nat, ops: seq<Op<T>>, j: nat, k: nat)
    requires capacity < FULL && j < k < |RawRun(capacity, ops).issued|
    ensures RawRun(capacity, ops).issued[j] != RawRun(capacity, ops).issued[k]
  {
    RawRunIsRun(capacity, ops);
    UidsNeverReused(capacity, ops, j, k);
  }

  lemma ErasedInvalidBelowFull<T>(capacity: nat, ops: seq<Op<T>>, uid: Uid)
    requires capacity < FULL && uid in RawRun(capacity, ops).erased
    ensures !IsValid(RawRun(capacity, ops).t.uids, uid)
  {
    RawRunIsRun(capacity, ops);
    ValidIffLive(Run(capacity, ops), uid);
  }

  lemma EmptyInvalidBelowFull<T>(capacity: nat, ops: seq<Op<T>>, i: nat)
    requires i < capacity < FULL && RawRun(capacity, ops).t.data[i] == None
    ensures !IsValid(RawRun(capacity, ops).t.uids, RawRun(capacity, ops).t.uids[i])
  {
    RawRunIsRun(capacity, ops);
    EmptyWord(Run(capacity, ops), i);
  }

  lemma KeptBelow<T(!new)>(capacity: nat)
    requires capacity < FULL
    ensures NeverReused<T>(capacity) && ErasedInvalid<T>(capacity) && EmptyInvalid<T>(capacity)
  {
    forall ops: seq<Op<T>>, j, k | 0 <= j < k < |RawRun(capacity, ops).issued|
      ensures RawRun(capacity, ops).issued[j] != RawRun(capacity, ops).issued[k]
    {
      DistinctBelowFull(capacity, ops, j, k);
    }
    forall ops: seq<Op<T>>, uid | uid in RawRun(capacity, ops).erased
      ensures !IsValid(RawRun(capacity, ops).t.uids, uid)
    {
      ErasedInvalidBelowFull(capacity, ops, uid);
    }
    forall ops: seq<Op<T>>, i | 0 <= i < capacity && RawRun(capacity, ops).t.data[i] == None
      ensures !IsValid(RawRun(capacity, ops).t.uids, RawRun(capacity, ops).t.uids[i])
    {
      EmptyInvalidBelowFull(capacity, ops, i);
    }
  }

  // ---------------------------------------------------------------------------------------------
  // The run that breaks them at 2^32
  // ---------------------------------------------------------------------------------------------

  ghost function Emplaces<T>(item: T, k: nat): seq<Op<T>> {
    if k == 0 then [] else Emplaces(item, k - 1) + [EmplaceOp(item)]
  }

  /** The first `k` slots issued once, the others still linked in order. */
  ghost function Filled<T>(item: T, k: nat): (tr: RawTrace<T>)
    requires k <= FULL
    ensures |tr.t.data| == |tr.t.uids| == FULL
  {
    RawTrace(
      Table(seq(FULL, i requires 0 <= i < FULL => if i < k then Uid(1, i) else Decode(i + 1)),
            seq(FULL, i requires 0 <= i < FULL => if i < k then Some(item) else None), k, Decode(k)),
      seq(k, i requires 0 <= i < k => Uid(1, i)), {})
  }

  lemma FillOneMore<T>(item: T, k: nat)
    requires k < FULL
    ensures RawStep(Filled(item, k), EmplaceOp(item)) == Filled(item, k + 1)
  {
    var tr, after := RawStep(Filled(item, k), EmplaceOp(item)), Filled(item, k + 1);
    assert tr.t.uids == after.t.uids;
    assert tr.t.data == after.t.data;
    assert tr.issued == after.issued;
  }

  lemma {:induction false} FillsUp<T>(item: T, k: nat)
    requires k <= FULL
    ensures RawRun(FULL, Emplaces(item, k)) == Filled(item, k)
  {
    if k == 0 {
      assert Filled(item, 0).t.uids == InitialUids(FULL);
      assert Filled(item, 0).t.data == InitialTable<T>(FULL).data;
    } else {
      FillsUp(item, k - 1);
      FillOneMore(item, k - 1);
      RawRunAppend(FULL, Emplaces(item, k - 1), EmplaceOp(item));
    }
  }

  /** The last link of the initial list is the first uid of slot 0, so erasing that uid changes no word. */
  lemma EraseTwice<T>(item: T, tr: RawTrace<T>)
    requires |tr.t.data| == |tr.t.uids| == FULL && tr.t.uids[0] == tr.t.next == Uid(1, 0) && tr.t.size >= 2
    ensures var after := RawStep(RawStep(tr, EraseOp(Uid(1, 0))), EraseOp(Uid(1, 0)));
            && after.t == tr.t.(data := tr.t.data[0 := None], size := tr.t.size - 2)
            && after.issued == tr.issued && after.erased == tr.erased + {Uid(1, 0)}
  {
    var once := RawStep(tr, EraseOp(Uid(1, 0)));
    assert once.t.uids == tr.t.uids;
    assert once.erased + {Uid(1, 0)} == tr.erased + {Uid(1, 0)};
  }

  /** From there the next two calls of `emplace` return the same uid. */
  lemma EmplaceTwice<T>(item: T, tr: RawTrace<T>)
    requires |tr.t.data| == |tr.t.uids| == FULL && tr.t.uids[0] == tr.t.next == Uid(1, 0) && tr.t.size == FULL - 2
    ensures RawStep(RawStep(tr, EmplaceOp(item)), EmplaceOp(item)).issued == tr.issued + [Uid(2, 0), Uid(2, 0)]
  {
    var once := RawStep(tr, EmplaceOp(item));
    assert once.issued == tr.issued + [Uid(2, 0)];
  }

  /** Fill the container, erase its first uid twice, and emplace twice. */
  lemma {:induction false} ReusesAtFull<T>(item: T) returns (erasing: seq<Op<T>>, ops: seq<Op<T>>)
    ensures var tr := RawRun(FULL, erasing);
            && Uid(1, 0) in tr.erased && IsValid(tr.t.uids, Uid(1, 0))
            && tr.t.data[0] == None && IsValid(tr.t.uids, tr.t.uids[0])
    ensures var tr := RawRun(FULL, ops);
            |tr.issued| == FULL + 2 && tr.issued[FULL] == tr.issued[FULL + 1]
  {
    var fill := Emplaces(item, FULL);
    FillsUp(item, FULL);
    var full := Filled(item, FULL);
    assert full.t.uids[0] == Uid(1, 0) == full.t.next;
    RawRunAppend(FULL, fill, EraseOp(Uid(1, 0)));
    erasing := fill + [EraseOp(Uid(1, 0))] + [EraseOp(Uid(1, 0))];
    RawRunAppend(FULL, fill + [EraseOp(Uid(1, 0))], EraseOp(Uid(1, 0)));
    EraseTwice(item, full);
    var erased := RawRun(FULL, erasing);
    RawRunAppend(FULL, erasing, EmplaceOp(item));
    ops := erasing + [EmplaceOp(item)] + [EmplaceOp(item)];
    RawRunAppend(FULL, erasing + [EmplaceOp(item)], EmplaceOp(item));
    EmplaceTwice(item, erased);
  }

  /** Of the capacities that `initialize` accepts, each promise is kept by exactly those below 2^32. */
  lemma KeptExactly<T(!new)>(capacity: nat, item: T)
    requires capacity <= FULL
    ensures NeverReused<T>(capacity) <==> capacity < FULL
    ensures ErasedInvalid<T>(capacity) <==> capacity < FULL
    ensures EmptyInvalid<T>(capacity) <==> capacity < FULL
  {
    if capacity < FULL {
      KeptBelow<T>(capacity);
    } else {
      var erasing, ops := ReusesAtFull(item);
      assert RawRun(FULL, ops).issued[FULL] == RawRun(FULL, ops).issued[FULL + 1];
    }
  }
}
