/**
  The value-level model of `UniqueIndexMap`: the uid words, the object storage, and what every run
  of `emplace` and `erase` keeps true of them.

  A uid is one 64-bit word: a version in the high 32 bits and a slot index in the low 32. The same
  array holds the uid of every live slot and the links of an implicit free list. The version of a
  free slot is stored only in the word that links to it.

  Words are modelled by their two halves; `WordsAreUids` ties the halves to 64-bit arithmetic.
 */
module UidTables {
  import opened Wrappers

  const MAX_VERSION: nat := 0xFFFF_FFFF

  datatype Error = ArgumentInvalid | OutOfMemory | ContainerFull | NotFound

  datatype Uid = Uid(version: nat, index: nat)

  function Encode(u: Uid): nat { u.version * 0x1_0000_0000 + u.index }

  function Decode(word: nat): Uid { Uid(word / 0x1_0000_0000, word % 0x1_0000_0000) }

  /** The word one version up. Adding 2^32 to a 64-bit word wraps the version and keeps the index. */
  function NextVersion(u: Uid): Uid {
    Uid(if u.version == MAX_VERSION then 0 else u.version + 1, u.index)
  }

  /** The 64-bit words are exactly the pairs of 32-bit halves, and `NextVersion` is `+ 2^32` on them. */
  lemma WordsAreUids(u: Uid, word: nat)
    requires u.version <= MAX_VERSION && u.index < 0x1_0000_0000 && word < 0x1_0000_0000_0000_0000
    ensures Decode(Encode(u)) == u && Encode(u) < 0x1_0000_0000_0000_0000
    ensures Encode(Decode(word)) == word
    ensures Decode(word).version <= MAX_VERSION && Decode(word).index < 0x1_0000_0000
    ensures Encode(NextVersion(u)) == (Encode(u) + 0x1_0000_0000) % 0x1_0000_0000_0000_0000
  {
  }

  // ---------------------------------------------------------------------------------------------
  // The concrete state and its operations
  // ---------------------------------------------------------------------------------------------

  /** `data[i]` is `None` where the storage of slot i is raw memory holding no object. */
  datatype Table<T> = Table(uids: seq<Uid>, data: seq<Option<T>>, size: nat, next: Uid)

  predicate IsValid(uids: seq<Uid>, uid: Uid) {
    uid.index < |uids| && uids[uid.index] == uid
  }

  function InitialUids(capacity: nat): (uids: seq<Uid>) { seq(capacity, i requires 0 <= i => Decode(i + 1)) }

  function InitialTable<T>(capacity: nat): Table<T> {
    Table(InitialUids(capacity), seq(capacity, _ => None), 0, Uid(0, 0))
  }

  predicate HeadInRange<T>(t: Table<T>) {
    |t.data| == |t.uids| && (t.size != |t.uids| ==> t.next.index < |t.uids|)
  }

  function Emplace<T>(t: Table<T>, item: T): (Table<T>, Result<Uid, Error>)
    requires HeadInRange(t)
  {
    if t.size == |t.uids| then (t, Err(OutOfMemory))
    else if t.next.version == MAX_VERSION then (t, Err(ContainerFull))
    else
      var idx := t.next.index;
      var uid := NextVersion(t.next);
      (Table(t.uids[idx := uid], t.data[idx := Some(item)], t.size + 1, t.uids[idx]), Ok(uid))
  }

  function Erase<T>(t: Table<T>, uid: Uid): (Table<T>, Result<(), Error>)
    requires |t.data| == |t.uids|
  {
    if !IsValid(t.uids, uid) then (t, Err(NotFound))
    else
      var size := if t.size == 0 then 0xFFFF_FFFF_FFFF_FFFF else t.size - 1;
      (Table(t.uids[uid.index := t.next], t.data[uid.index := None], size, uid), Ok(()))
  }

  // ---------------------------------------------------------------------------------------------
  // Runs
  // ---------------------------------------------------------------------------------------------

  datatype Op<T> = EmplaceOp(item: T) | EraseOp(uid: Uid)

  /**
    A table together with the history of its run: the slots of the free list in link order, the
    version of every slot, the uids returned by successful `emplace` calls in order, the uids given
    to successful `erase` calls, and the plain map from uid to object that the container stands for.
   */
  datatype Trace<T> = Trace(
    t: Table<T>,
    free: seq<nat>,
    versions: seq<nat>,
    issued: seq<Uid>,
    erased: set<Uid>,
    live: map<Uid, T>)

  ghost function Start<T>(capacity: nat): Trace<T> {
    Trace(InitialTable(capacity), seq(capacity, i => i), seq(capacity, _ => 0), [], {}, map[])
  }

  ghost function Step<T>(tr: Trace<T>, op: Op<T>): Trace<T>
    requires Inv(tr)
  {
    match op
    case EmplaceOp(item) =>
      var (t, r) := Emplace(tr.t, item);
      if r.Err? then tr
      else
        var head := tr.free[0];
        Trace(t, tr.free[1..], tr.versions[head := tr.versions[head] + 1], tr.issued + [r.value], tr.erased,
              tr.live[r.value := item])
    case EraseOp(uid) =>
      var (t, r) := Erase(tr.t, uid);
      if r.Err? then tr
      else Trace(t, [uid.index] + tr.free, tr.versions, tr.issued, tr.erased + {uid}, tr.live - {uid})
  }

  /** The state after any sequence of calls on a freshly initialized container. */
  ghost function Run<T>(capacity: nat, ops: seq<Op<T>>): (tr: Trace<T>)
    requires capacity < 0x1_0000_0000
    ensures Inv(tr) && |tr.t.uids| == capacity
  {
    if ops == [] then
      StartKeepsInv<T>(capacity);
      Start(capacity)
    else
      var before := Run(capacity, ops[..|ops| - 1]);
      StepKeepsInv(before, ops[|ops| - 1]);
      Step(before, ops[|ops| - 1])
  }

  // ---------------------------------------------------------------------------------------------
  // The invariant
  // ---------------------------------------------------------------------------------------------

  ghost predicate Distinct(s: seq<nat>) {
    forall j, k :: 0 <= j < k < |s| ==> s[j] != s[k]
  }

  /**
    `word` starts a chain of links through the slots `free`. Each link carries the version of the
    slot it points at, and the last one points just past the table.
   */
  ghost predicate Chain(uids: seq<Uid>, versions: seq<nat>, word: Uid, free: seq<nat>)
    requires |versions| == |uids|
    decreases |free|
  {
    if free == [] then word == Uid(0, |uids|)
    else
      && free[0] < |uids|
      && word == Uid(versions[free[0]], free[0])
      && Chain(uids, versions, uids[free[0]], free[1..])
  }

  /**
    The versions count the uids issued: going back over the history one uid at a time, each uid
    carries the version its slot then had, and every version ends at 0.
   */
  ghost predicate History(issued: seq<Uid>, versions: seq<nat>)
    decreases |issued|
  {
    if issued == [] then forall i :: 0 <= i < |versions| ==> versions[i] == 0
    else
      var last := issued[|issued| - 1];
      && last.index < |versions|
      && 0 < last.version == versions[last.index]
      && History(issued[..|issued| - 1], versions[last.index := last.version - 1])
  }

  /** A slot outside the free list holds its own uid and a constructed object; one inside holds none. */
  ghost predicate SlotsAgree<T>(t: Table<T>, versions: seq<nat>, free: seq<nat>, live: map<Uid, T>)
    requires |t.data| == |t.uids| == |versions|
  {
    && (forall i :: 0 <= i < |t.uids| && i !in free ==>
          && t.uids[i] == Uid(versions[i], i)
          && t.uids[i] in live
          && t.data[i] == Some(live[t.uids[i]]))
    && (forall i :: 0 <= i < |t.uids| && i in free ==> t.data[i] == None)
    && (forall u :: u in live ==> IsValid(t.uids, u) && u.index !in free)
  }

  ghost predicate Structure<T>(t: Table<T>, free: seq<nat>, versions: seq<nat>, live: map<Uid, T>) {
    && |versions| == |t.data| == |t.uids| < 0x1_0000_0000
    && HeadInRange(t)
    && t.size + |free| == |t.uids|
    && Distinct(free)
    && Chain(t.uids, versions, t.next, free)
    && SlotsAgree(t, versions, free, live)
    && (forall i :: 0 <= i < |versions| ==> versions[i] <= MAX_VERSION)
  }

  ghost predicate Past(issued: seq<Uid>, versions: seq<nat>, erased: set<Uid>, live: set<Uid>) {
    History(issued, versions) && live == UidSet(issued) - erased && erased <= UidSet(issued)
  }

  ghost function UidSet(s: seq<Uid>): set<Uid> {
    if s == [] then {} else UidSet(s[..|s| - 1]) + {s[|s| - 1]}
  }

  lemma {:induction false} InUidSet(s: seq<Uid>, u: Uid)
    ensures u in UidSet(s) <==> u in s
  {
    if s != [] {
      InUidSet(s[..|s| - 1], u);
      assert s == s[..|s| - 1] + [s[|s| - 1]];
    }
  }

  ghost predicate Inv<T>(tr: Trace<T>) {
    Structure(tr.t, tr.free, tr.versions, tr.live) && Past(tr.issued, tr.versions, tr.erased, tr.live.Keys)
  }

  /** The initial words chain the slots from `k` on. */
  lemma {:induction false} InitialChain(capacity: nat, k: nat)
    requires k <= capacity < 0x1_0000_0000
    ensures Chain(InitialUids(capacity), seq(capacity, _ => 0), Uid(0, k), seq(capacity - k, i => i + k))
    decreases capacity - k
  {
    var free := seq(capacity - k, i => i + k);
    if k < capacity {
      InitialChain(capacity, k + 1);
      assert free[1..] == seq(capacity - (k + 1), i => i + (k + 1));
      assert InitialUids(capacity)[k] == Decode(k + 1) == Uid(0, k + 1);
    }
  }

  lemma StartKeepsInv<T>(capacity: nat)
    requires capacity < 0x1_0000_0000
    ensures Inv(Start<T>(capacity))
  {
    var tr := Start<T>(capacity);
    InitialChain(capacity, 0);
    assert tr.free == seq(capacity, i => i + 0);
    forall i | 0 <= i < capacity ensures i in tr.free { assert tr.free[i] == i; }
  }

  /** Words of slots outside the chain, and their versions, do not matter to it. */
  lemma {:induction false} ChainFrame(uids: seq<Uid>, versions: seq<nat>, word: Uid, free: seq<nat>,
                                      i: nat, w: Uid, v: nat)
    requires |versions| == |uids| && i < |uids| && i !in free
    requires Chain(uids, versions, word, free)
    ensures Chain(uids[i := w], versions[i := v], word, free)
    decreases |free|
  {
    if free != [] {
      assert free[0] in free;
      ChainFrame(uids, versions, uids[free[0]], free[1..], i, w, v);
    }
  }

  /** Every slot of a chain is in the table, and its word names another slot of the chain or none. */
  lemma {:induction false} ChainWord(uids: seq<Uid>, versions: seq<nat>, word: Uid, free: seq<nat>, i: nat)
    requires |versions| == |uids| && Distinct(free) && i in free
    requires Chain(uids, versions, word, free)
    ensures i < |uids| && !IsValid(uids, uids[i]) && uids[i].index != i
    decreases |free|
  {
    if i == free[0] {
      if |free| > 1 {
        var onward := free[1..];
        assert onward[0] == free[1] != i && Chain(uids, versions, uids[onward[0]], onward[1..]);
        if |free| > 2 { assert onward[1..][0] == free[2] != free[1]; }
      }
    } else {
      ChainWord(uids, versions, uids[free[0]], free[1..], i);
    }
  }

  lemma StepKeepsInv<T>(tr: Trace<T>, op: Op<T>)
    requires Inv(tr)
    ensures Inv(Step(tr, op)) && |Step(tr, op).t.uids| == |tr.t.uids|
  {
    match op
    case EmplaceOp(item) =>
      if Emplace(tr.t, item).1.Ok? { EmplaceKeepsInv(tr, item); }
    case EraseOp(uid) =>
      if Erase(tr.t, uid).1.Ok? { EraseKeepsInv(tr, uid); }
  }

  lemma EmplaceKeepsInv<T>(tr: Trace<T>, item: T)
    requires Inv(tr) && Emplace(tr.t, item).1.Ok?
    ensures Inv(Step(tr, EmplaceOp(item)))
  {
    EmplaceKeepsStructure(tr.t, tr.free, tr.versions, tr.live, item);
    IssueKeepsPast(tr.issued, tr.versions, tr.erased, tr.live.Keys, Emplace(tr.t, item).1.value);
    assert Step(tr, EmplaceOp(item)).live.Keys == tr.live.Keys + {Emplace(tr.t, item).1.value};
  }

  lemma EmplaceKeepsStructure<T>(t: Table<T>, free: seq<nat>, versions: seq<nat>, live: map<Uid, T>, item: T)
    requires Structure(t, free, versions, live) && Emplace(t, item).1.Ok?
    ensures var uid := Emplace(t, item).1.value;
            && free[0] < |versions| && uid == Uid(versions[free[0]] + 1, free[0])
            && Structure(Emplace(t, item).0, free[1..], versions[free[0] := versions[free[0]] + 1], live[uid := item])
  {
    var uid := NextVersion(t.next);
    assert free[0] == t.next.index && uid == Uid(versions[free[0]] + 1, free[0]);
    EmplaceKeepsChain(t.uids, versions, t.next, free, uid);
    EmplaceKeepsSlots(t, versions, free, live, item);
  }

  lemma IssueKeepsPast(issued: seq<Uid>, versions: seq<nat>, erased: set<Uid>, live: set<Uid>, uid: Uid)
    requires Past(issued, versions, erased, live)
    requires uid.index < |versions| && uid.version == versions[uid.index] + 1
    ensures Past(issued + [uid], versions[uid.index := uid.version], erased, live + {uid})
  {
    FreshUid(issued, versions, uid);
    IssueKeepsHistory(issued, versions, uid);
    InUidSet(issued, uid);
    assert (issued + [uid])[..|issued|] == issued;
  }

  lemma EmplaceKeepsChain(uids: seq<Uid>, versions: seq<nat>, word: Uid, free: seq<nat>, uid: Uid)
    requires |versions| == |uids| && Distinct(free) && free != [] && Chain(uids, versions, word, free)
    ensures Chain(uids[free[0] := uid], versions[free[0] := versions[free[0]] + 1], uids[free[0]], free[1..])
    ensures Distinct(free[1..]) && (|free| > 1 ==> uids[free[0]].index < |uids|)
  {
    assert free[0] !in free[1..];
    ChainFrame(uids, versions, uids[free[0]], free[1..], free[0], uid, versions[free[0]] + 1);
  }

  lemma EmplaceKeepsSlots<T>(t: Table<T>, versions: seq<nat>, free: seq<nat>, live: map<Uid, T>, item: T)
    requires |t.data| == |t.uids| == |versions| && HeadInRange(t) && Emplace(t, item).1.Ok?
    requires free != [] && Distinct(free) && free[0] == t.next.index && t.next.version == versions[free[0]]
    requires SlotsAgree(t, versions, free, live)
    ensures var uid := NextVersion(t.next);
            SlotsAgree(Emplace(t, item).0, versions[free[0] := versions[free[0]] + 1], free[1..], live[uid := item])
  {
    assert free == [free[0]] + free[1..];
    assert free[0] !in free[1..];
    var uid := NextVersion(t.next);
    assert uid !in live;
    var after := Emplace(t, item).0;
    forall u | u in live[uid := item] ensures IsValid(after.uids, u) && u.index !in free[1..] {
      if u != uid { assert IsValid(t.uids, u) && u.index !in free; }
    }
  }

  lemma IssueKeepsHistory(issued: seq<Uid>, versions: seq<nat>, uid: Uid)
    requires History(issued, versions) && uid.index < |versions| && uid.version == versions[uid.index] + 1
    ensures History(issued + [uid], versions[uid.index := uid.version])
  {
    assert (issued + [uid])[..|issued|] == issued;
    assert versions[uid.index := uid.version][uid.index := uid.version - 1] == versions;
  }

  /** No uid issued so far has a version above that of its slot. */
  lemma {:induction false} FreshUid(issued: seq<Uid>, versions: seq<nat>, uid: Uid)
    requires History(issued, versions)
    requires uid.index < |versions| && uid.version > versions[uid.index]
    ensures uid !in issued
    decreases |issued|
  {
    if issued != [] {
      var last := issued[|issued| - 1];
      var before := issued[..|issued| - 1];
      FreshUid(before, versions[last.index := last.version - 1], uid);
      assert issued == before + [last];
    }
  }

  lemma EraseKeepsInv<T>(tr: Trace<T>, uid: Uid)
    requires Inv(tr) && Erase(tr.t, uid).1.Ok?
    ensures Inv(Step(tr, EraseOp(uid)))
  {
    ValidIffLive(tr, uid);
    EraseKeepsStructure(tr.t, tr.free, tr.versions, tr.live, uid);
    assert Step(tr, EraseOp(uid)).live.Keys == tr.live.Keys - {uid};
  }

  lemma EraseKeepsStructure<T>(t: Table<T>, free: seq<nat>, versions: seq<nat>, live: map<Uid, T>, uid: Uid)
    requires Structure(t, free, versions, live) && uid in live && t.size > 0
    ensures IsValid(t.uids, uid) && Structure(Erase(t, uid).0, [uid.index] + free, versions, live - {uid})
  {
    ChainFrame(t.uids, versions, t.next, free, uid.index, t.next, versions[uid.index]);
    assert versions[uid.index := versions[uid.index]] == versions;
    assert ([uid.index] + free)[1..] == free;
    EraseKeepsSlots(t, versions, free, live, uid);
  }

  lemma EraseKeepsSlots<T>(t: Table<T>, versions: seq<nat>, free: seq<nat>, live: map<Uid, T>, uid: Uid)
    requires |t.data| == |t.uids| == |versions| && SlotsAgree(t, versions, free, live) && uid in live
    ensures SlotsAgree(Erase(t, uid).0, versions, [uid.index] + free, live - {uid})
  {
    var after := Erase(t, uid).0;
    var rest := live - {uid};
    forall i | 0 <= i < |t.uids| && i !in [uid.index] + free
      ensures t.uids[i] in rest && after.data[i] == Some(rest[after.uids[i]]) && after.uids[i] == t.uids[i]
    {
      assert i !in free && i != uid.index;
    }
    forall u | u in rest ensures IsValid(after.uids, u) && u.index !in [uid.index] + free {
      assert IsValid(t.uids, u) && IsValid(t.uids, uid);
    }
  }

  // ---------------------------------------------------------------------------------------------
  // What the container promises
  // ---------------------------------------------------------------------------------------------

  /** `valid(uid)` holds exactly for the uids issued and not erased, and the object is the one stored. */
  lemma ValidIffLive<T>(tr: Trace<T>, uid: Uid)
    requires Inv(tr)
    ensures IsValid(tr.t.uids, uid) <==> uid in tr.live
    ensures IsValid(tr.t.uids, uid) <==> uid in tr.issued && uid !in tr.erased
    ensures uid in tr.live ==> tr.t.size > 0 && uid.index !in tr.free && tr.t.data[uid.index] == Some(tr.live[uid])
  {
    InUidSet(tr.issued, uid);
    if IsValid(tr.t.uids, uid) && uid.index in tr.free {
      ChainWord(tr.t.uids, tr.versions, tr.t.next, tr.free, uid.index);
    }
    if uid in tr.live && tr.t.size == 0 {
      FreeBelow(tr);
      DistinctBelow(tr.free, |tr.t.uids|, uid.index);
    }
  }

  /** What erasing a live uid comes to: its word becomes the link to the old head, and it the new head. */
  lemma EraseLive<T>(tr: Trace<T>, uid: Uid)
    requires Inv(tr) && uid in tr.live
    ensures uid.index < |tr.t.uids| && tr.t.data[uid.index].Some? && tr.t.size > 0
    ensures Step(tr, EraseOp(uid)).t
            == Table(tr.t.uids[uid.index := tr.t.next], tr.t.data[uid.index := None], tr.t.size - 1, uid)
    ensures Inv(Step(tr, EraseOp(uid))) && Step(tr, EraseOp(uid)).live == tr.live - {uid}
  {
    ValidIffLive(tr, uid);
    EraseKeepsInv(tr, uid);
  }

  lemma EraseOther<T>(tr: Trace<T>, uid: Uid)
    requires Inv(tr) && uid !in tr.live
    ensures Step(tr, EraseOp(uid)) == tr && tr.live - {uid} == tr.live
  {
    ValidIffLive(tr, uid);
  }

  /** The object under a live uid is changed in place. */
  ghost function Assigned<T>(tr: Trace<T>, uid: Uid, item: T): Trace<T>
    requires Inv(tr) && uid in tr.live
  {
    tr.(t := tr.t.(data := tr.t.data[uid.index := Some(item)]), live := tr.live[uid := item])
  }

  lemma AssignKeepsInv<T>(tr: Trace<T>, uid: Uid, item: T)
    requires Inv(tr) && uid in tr.live
    ensures Inv(Assigned(tr, uid, item))
  {
    ValidIffLive(tr, uid);
    assert Assigned(tr, uid, item).live.Keys == tr.live.Keys;
  }

  /** A slot's word carries the slot's own index exactly when an object is stored there under that word. */
  lemma SlotOfLive<T>(tr: Trace<T>, i: nat)
    requires Inv(tr) && i < |tr.t.uids|
    ensures tr.t.uids[i].index == i <==> tr.t.data[i].Some?
    ensures tr.t.uids[i].index == i <==> tr.t.uids[i] in tr.live
    ensures tr.t.uids[i] in tr.live ==> tr.t.data[i] == Some(tr.live[tr.t.uids[i]])
    ensures forall u :: u in tr.live && u.index == i ==> u == tr.t.uids[i]
  {
    if i in tr.free {
      ChainWord(tr.t.uids, tr.versions, tr.t.next, tr.free, i);
    }
  }

  /** The word of a slot that holds no object is not valid. */
  lemma EmptyWord<T>(tr: Trace<T>, i: nat)
    requires Inv(tr) && i < |tr.t.uids| && tr.t.data[i] == None
    ensures !IsValid(tr.t.uids, tr.t.uids[i])
  {
    assert i in tr.free;
    ChainWord(tr.t.uids, tr.versions, tr.t.next, tr.free, i);
  }

  /** The words that name their own slot, among the first `n`: what `deinitialize` goes by. */
  function OwnWords(uids: seq<Uid>, n: nat): seq<Uid>
    requires n <= |uids|
  {
    if n == 0 then []
    else OwnWords(uids, n - 1) + if uids[n - 1].index == n - 1 then [uids[n - 1]] else []
  }

  lemma {:induction false} OwnWordsOrdered(uids: seq<Uid>, n: nat)
    requires n <= |uids|
    ensures forall k :: 0 <= k < |OwnWords(uids, n)| ==> OwnWords(uids, n)[k].index < n
    ensures forall j, k :: 0 <= j < k < |OwnWords(uids, n)| ==> OwnWords(uids, n)[j].index < OwnWords(uids, n)[k].index
  {
    if n > 0 { OwnWordsOrdered(uids, n - 1); }
  }

  lemma {:induction false} OwnWordsMembers<T>(tr: Trace<T>, n: nat, u: Uid)
    requires Inv(tr) && n <= |tr.t.uids|
    ensures u in OwnWords(tr.t.uids, n) <==> u in tr.live && u.index < n
  {
    if n > 0 {
      OwnWordsMembers(tr, n - 1, u);
      SlotOfLive(tr, n - 1);
    }
  }

  /** They are the live uids, each once, in slot order. */
  lemma {:induction false} OwnWordsAreLive<T>(tr: Trace<T>, n: nat)
    requires Inv(tr) && n <= |tr.t.uids|
    ensures forall u :: u in OwnWords(tr.t.uids, n) <==> u in tr.live && u.index < n
    ensures forall j, k :: 0 <= j < k < |OwnWords(tr.t.uids, n)| ==>
              OwnWords(tr.t.uids, n)[j].index < OwnWords(tr.t.uids, n)[k].index
  {
    OwnWordsOrdered(tr.t.uids, n);
    forall u ensures u in OwnWords(tr.t.uids, n) <==> u in tr.live && u.index < n {
      OwnWordsMembers(tr, n, u);
    }
  }

  lemma LiveInRange<T>(tr: Trace<T>)
    requires Inv(tr)
    ensures forall u :: u in tr.live ==> u.index < |tr.t.uids|
  {
  }

  lemma FreeBelow<T>(tr: Trace<T>)
    requires Inv(tr)
    ensures forall i :: i in tr.free ==> i < |tr.t.uids|
  {
    forall i | i in tr.free ensures i < |tr.t.uids| {
      ChainWord(tr.t.uids, tr.versions, tr.t.next, tr.free, i);
    }
  }

  /** In every run no two successful `emplace` calls return the same uid. */
  lemma {:induction false} UidsNeverReused<T>(capacity: nat, ops: seq<Op<T>>, j: nat, k: nat)
    requires capacity < 0x1_0000_0000
    requires j < k < |Run(capacity, ops).issued|
    ensures Run(capacity, ops).issued[j] != Run(capacity, ops).issued[k]
  {
    HistoryIsDistinct(Run(capacity, ops).issued, Run(capacity, ops).versions, j, k);
  }

  lemma {:induction false} HistoryIsDistinct(issued: seq<Uid>, versions: seq<nat>, j: nat, k: nat)
    requires History(issued, versions) && j < k < |issued|
    ensures issued[j] != issued[k]
    decreases |issued|
  {
    var last := issued[|issued| - 1];
    var before := issued[..|issued| - 1];
    var earlier := versions[last.index := last.version - 1];
    if k < |issued| - 1 {
      HistoryIsDistinct(before, earlier, j, k);
    } else {
      FreshUid(before, earlier, last);
      assert before[j] == issued[j];
    }
  }

  /** How often slot `i` was issued. */
  ghost function Issues(issued: seq<Uid>, i: nat): nat {
    if issued == [] then 0
    else Issues(issued[..|issued| - 1], i) + if issued[|issued| - 1].index == i then 1 else 0
  }

  /** The version of a slot is the number of times it was issued. */
  lemma {:induction false} VersionCountsIssues(issued: seq<Uid>, versions: seq<nat>, i: nat)
    requires History(issued, versions) && i < |versions|
    ensures versions[i] == Issues(issued, i)
    decreases |issued|
  {
    if issued != [] {
      var last := issued[|issued| - 1];
      VersionCountsIssues(issued[..|issued| - 1], versions[last.index := last.version - 1], i);
    }
  }

  lemma RunAppend<T>(capacity: nat, ops: seq<Op<T>>, op: Op<T>)
    requires capacity < 0x1_0000_0000
    ensures Run(capacity, ops + [op]) == Step(Run(capacity, ops), op)
  {
    assert (ops + [op])[..|ops|] == ops;
  }

  lemma ConcatLast<T>(a: seq<T>, b: seq<T>)
    requires b != []
    ensures a + b == a + b[..|b| - 1] + [b[|b| - 1]]
  {
  }

  lemma StepKeepsErased<T>(tr: Trace<T>, op: Op<T>)
    requires Inv(tr)
    ensures tr.erased <= Step(tr, op).erased
  {
  }

  /** A uid once erased is invalid in every later state: slots are recycled, uids are not. */
  lemma {:induction false} ErasedStaysInvalid<T>(capacity: nat, ops: seq<Op<T>>, more: seq<Op<T>>, uid: Uid)
    requires capacity < 0x1_0000_0000
    requires uid in Run(capacity, ops).erased
    ensures uid in Run(capacity, ops + more).erased && !IsValid(Run(capacity, ops + more).t.uids, uid)
  {
    if more == [] {
      assert ops + more == ops;
    } else {
      var before := more[..|more| - 1];
      assert ops + more == ops + before + [more[|more| - 1]] by { ConcatLast(ops, more); }
      ErasedStaysInvalid(capacity, ops, before, uid);
      RunAppend(capacity, ops + before, more[|more| - 1]);
      StepKeepsErased(Run(capacity, ops + before), more[|more| - 1]);
    }
    ValidIffLive(Run(capacity, ops + more), uid);
  }

  /** Exactly when `emplace` fails and with which error; otherwise the uid is new and the slot empty. */
  lemma {:induction false} EmplaceOutcome<T>(capacity: nat, ops: seq<Op<T>>, item: T)
    requires capacity < 0x1_0000_0000
    ensures var tr := Run(capacity, ops);
            var r := Emplace(tr.t, item).1;
            && (r == Err(OutOfMemory) <==> |tr.live| == capacity)
            && (r == Err(ContainerFull) <==>
                  |tr.live| < capacity && tr.free != [] && Issues(tr.issued, tr.free[0]) == MAX_VERSION)
            && (r.Ok? ==> r.value !in tr.issued && tr.t.data[r.value.index] == None)
            && (r.Ok? ==> Encode(tr.t.next) + 0x1_0000_0000 == Encode(r.value) < 0x1_0000_0000_0000_0000)
  {
    var tr := Run(capacity, ops);
    LiveCount(tr);
    if tr.free != [] { VersionCountsIssues(tr.issued, tr.versions, tr.free[0]); }
    if Emplace(tr.t, item).1.Ok? {
      FreshUid(tr.issued, tr.versions, Emplace(tr.t, item).1.value);
      assert tr.free[0] in tr.free;
    }
  }

  /** `size` is the number of live objects. */
  lemma LiveCount<T>(tr: Trace<T>)
    requires Inv(tr)
    ensures |tr.live| == tr.t.size
  {
    FreeBelow(tr);
    CountSlots(tr.t, tr.free, tr.versions, tr.live);
  }

  lemma CountSlots<T>(t: Table<T>, free: seq<nat>, versions: seq<nat>, live: map<Uid, T>)
    requires |t.data| == |t.uids| == |versions| && Distinct(free) && SlotsAgree(t, versions, free, live)
    requires forall i :: i in free ==> i < |t.uids|
    ensures |live| == |t.uids| - |free|
  {
    var slots := Complement(free, |t.uids|);
    assert forall i :: i in slots ==> i < |t.uids| && t.uids[i].index == i;
    ImageSize(slots, t.uids);
    LiveWords(t, versions, free, live, slots);
  }

  lemma LiveWords<T>(t: Table<T>, versions: seq<nat>, free: seq<nat>, live: map<Uid, T>, slots: set<nat>)
    requires |t.data| == |t.uids| == |versions| && SlotsAgree(t, versions, free, live)
    requires forall i :: i in slots <==> 0 <= i < |t.uids| && i !in free
    ensures live.Keys == set i | i in slots :: t.uids[i]
  {
    var words := set i | i in slots :: t.uids[i];
    forall u | u in live.Keys ensures u in words {
      assert u.index in slots && t.uids[u.index] == u;
    }
  }

  /** No run issues more than capacity * (2^32 - 1) uids, and no slot more than 2^32 - 1. */
  lemma {:induction false} IssueBound<T>(capacity: nat, ops: seq<Op<T>>)
    requires capacity < 0x1_0000_0000
    ensures |Run(capacity, ops).issued| <= capacity * MAX_VERSION
    ensures forall i :: 0 <= i < capacity ==> Issues(Run(capacity, ops).issued, i) <= MAX_VERSION
  {
    var tr := Run(capacity, ops);
    forall i | 0 <= i < capacity ensures Issues(tr.issued, i) <= MAX_VERSION {
      VersionCountsIssues(tr.issued, tr.versions, i);
    }
    IssuedIsSum(tr.issued, tr.versions);
    SumBound(tr.versions);
  }

  ghost function Sum(s: seq<nat>): nat {
    if s == [] then 0 else Sum(s[..|s| - 1]) + s[|s| - 1]
  }

  lemma {:induction false} SumBound(s: seq<nat>)
    requires forall i :: 0 <= i < |s| ==> s[i] <= MAX_VERSION
    ensures Sum(s) <= |s| * MAX_VERSION
  {
    if s != [] { SumBound(s[..|s| - 1]); }
  }

  lemma {:induction false} SumUpdate(s: seq<nat>, i: nat, v: nat)
    requires i < |s|
    ensures Sum(s[i := v]) == Sum(s) - s[i] + v
  {
    if i < |s| - 1 {
      SumUpdate(s[..|s| - 1], i, v);
      assert s[i := v][..|s| - 1] == s[..|s| - 1][i := v];
    } else {
      assert s[i := v][..|s| - 1] == s[..|s| - 1];
    }
  }

  lemma {:induction false} SumZero(s: seq<nat>)
    requires forall i :: 0 <= i < |s| ==> s[i] == 0
    ensures Sum(s) == 0
  {
    if s != [] { SumZero(s[..|s| - 1]); }
  }

  lemma {:induction false} IssuedIsSum(issued: seq<Uid>, versions: seq<nat>)
    requires History(issued, versions)
    ensures |issued| == Sum(versions)
    decreases |issued|
  {
    if issued == [] {
      SumZero(versions);
    } else {
      var last := issued[|issued| - 1];
      IssuedIsSum(issued[..|issued| - 1], versions[last.index := last.version - 1]);
      SumUpdate(versions, last.index, last.version - 1);
    }
  }

  // ---------------------------------------------------------------------------------------------
  // Counting
  // ---------------------------------------------------------------------------------------------

  ghost function Range(n: nat): (s: set<nat>)
    ensures |s| == n
    ensures forall i: nat :: i in s <==> i < n
  {
    if n == 0 then {} else Range(n - 1) + {n - 1}
  }

  ghost function Elements(s: seq<nat>): (e: set<nat>)
    ensures forall x :: x in e <==> x in s
  {
    if s == [] then {} else {s[0]} + Elements(s[1..])
  }

  lemma {:induction false} DistinctSize(s: seq<nat>)
    requires Distinct(s)
    ensures |Elements(s)| == |s|
  {
    if s != [] {
      DistinctSize(s[1..]);
      assert s[0] !in s[1..];
    }
  }

  /** The numbers below n that a duplicate-free list leaves out. */
  ghost function Complement(s: seq<nat>, n: nat): (c: set<nat>)
    requires Distinct(s) && forall y :: y in s ==> y < n
    ensures forall i: nat :: i in c <==> i < n && i !in s
    ensures |c| == n - |s|
  {
    DistinctSize(s);
    assert Elements(s) <= Range(n);
    Range(n) - Elements(s)
  }

  /** A duplicate-free list of n numbers below n mentions all of them. */
  lemma DistinctBelow(s: seq<nat>, n: nat, x: nat)
    requires |s| == n && x < n && Distinct(s)
    requires forall y :: y in s ==> y < n
    ensures x in s
  {
    assert x !in Complement(s, n);
  }

  lemma {:induction false} ImageSize(slots: set<nat>, words: seq<Uid>)
    requires forall i :: i in slots ==> i < |words| && words[i].index == i
    ensures |set i | i in slots :: words[i]| == |slots|
    decreases |slots|
  {
    var image := set i | i in slots :: words[i];
    if |slots| > 0 {
      var x :| x in slots;
      var rest := slots - {x};
      ImageSize(rest, words);
      var restImage := set i | i in rest :: words[i];
      assert image == {words[x]} + restImage;
      assert words[x] !in restImage;
    }
  }

  // ---------------------------------------------------------------------------------------------
  // The largest capacity `initialize` accepts
  // ---------------------------------------------------------------------------------------------

  /** `initialize` accepts every capacity up to 2^32, but the last word is outside the table only below that. */
  lemma LastWordOutsideTable(capacity: nat)
    requires 0 < capacity <= 0x1_0000_0000
    ensures InitialUids(capacity)[capacity - 1].index >= capacity <==> capacity < 0x1_0000_0000
  {
    assert InitialUids(capacity)[capacity - 1] == Decode(capacity);
  }

  /**
    With capacity exactly 2^32 the last word is also the first uid of slot 0. After one `emplace`,
    the word of the last slot reads as valid although nothing was ever stored there, so `find`
    would compare raw memory.
   */
  lemma FullIndexRangeAliasesSlotZero<T>(item: T)
    ensures var t := InitialTable<T>(0x1_0000_0000);
            && HeadInRange(t)
            && var (after, r) := Emplace(t, item);
            && r == Ok(Uid(1, 0))
            && IsValid(after.uids, after.uids[0xFFFF_FFFF])
            && after.data[0xFFFF_FFFF] == None
  {
    var t := InitialTable<T>(0x1_0000_0000);
    assert |t.uids| == 0x1_0000_0000 && t.uids[0xFFFF_FFFF] == Decode(0x1_0000_0000) == Uid(1, 0);
    var after := Emplace(t, item).0;
    assert after.uids[0] == Uid(1, 0);
  }
}
