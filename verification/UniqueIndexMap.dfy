/**
  The container itself: the operations of `UniqueIndexMap` as they update its arrays in place, each
  proved to do what the value-level model in `UidTables` says.
 */
module UniqueIndexMaps {
  import opened Wrappers
  import opened UidTables

  class UniqueIndexMap<T(==)> {
    var uids: array<Uid>
    var data: array<Option<T>>
    var size: nat
    var next: Uid

    /** The history of this container since it was initialized. */
    ghost var trace: Trace<T>

    ghost predicate Valid()
      reads this, uids, data
    {
      trace.t == Table(uids[..], data[..], size, next) && Inv(trace)
    }

    constructor ()
      ensures Valid() && trace == Start(0) && fresh(uids) && fresh(data)
    {
      uids := new Uid[0];
      data := new Option<T>[0];
      size, next := 0, Uid(0, 0);
      trace := Start(0);
      new;
      StartKeepsInv<T>(0);
      assert uids[..] == InitialUids(0) && data[..] == InitialTable<T>(0).data;
    }

    /**
      Sets up the words and the storage. The size and the head of the free list are not touched: they are
      right if the container is new or has been deinitialized. Both allocations succeed here.
     */
    method Initialize(maxCapacity: nat) returns (r: Result<(), Error>)
      modifies this
      ensures r == if maxCapacity > 0x1_0000_0000 then Err(ArgumentInvalid) else Ok(())
      ensures r.Ok? ==> fresh(uids) && fresh(data)
                        && Table(uids[..], data[..], size, next)
                           == InitialTable<T>(maxCapacity).(size := old(size), next := old(next))
      ensures r.Ok? && maxCapacity < 0x1_0000_0000 && old(size) == 0 && old(next) == Uid(0, 0) ==>
                Valid() && trace == Start(maxCapacity)
      ensures r.Err? ==> unchanged(this)
    {
      if maxCapacity > 0x1_0000_0000 {
        return Err(ArgumentInvalid);
      }
      uids := new Uid[maxCapacity];
      data := new Option<T>[maxCapacity](_ => None);
      var i := 0;
      while i < maxCapacity
        invariant 0 <= i <= maxCapacity && fresh(uids) && fresh(data)
        invariant uids.Length == data.Length == maxCapacity
        invariant size == old(size) && next == old(next)
        invariant forall k :: 0 <= k < i ==> uids[k] == Decode(k + 1)
        invariant forall k :: 0 <= k < maxCapacity ==> data[k] == None
      {
        uids[i] := Decode(i + 1);
        i := i + 1;
      }
      assert uids[..] == InitialUids(maxCapacity);
      assert data[..] == InitialTable<T>(maxCapacity).data;
      if maxCapacity < 0x1_0000_0000 {
        trace := Start(maxCapacity);
        StartKeepsInv<T>(maxCapacity);
      }
      r := Ok(());
    }

    predicate IsLive(uid: Uid)
      reads this, uids
    {
      uid.index < uids.Length && uids[uid.index] == uid
    }

    method Emplace(item: T) returns (r: Result<Uid, Error>)
      requires Valid()
      modifies this, uids, data
      ensures Valid() && trace == Step(old(trace), EmplaceOp(item))
      ensures uids == old(uids) && data == old(data)
      ensures r == UidTables.Emplace(old(trace.t), item).1
      ensures r.Ok? ==> r.value !in old(trace.issued) && trace.live == old(trace.live)[r.value := item]
    {
      if size == uids.Length { return Err(OutOfMemory); }
      if next.version == MAX_VERSION { return Err(ContainerFull); }
      StepKeepsInv(trace, EmplaceOp(item));
      InUidSet(trace.issued, NextVersion(next));
      FreshUid(trace.issued, trace.versions, NextVersion(next));
      var idx := next.index;
      var temp := next;
      next := uids[idx];
      uids[idx] := NextVersion(temp);
      data[idx] := Some(item);
      size := size + 1;
      trace := Step(trace, EmplaceOp(item));
      r := Ok(uids[idx]);
    }

    method Erase(uid: Uid) returns (r: Result<(), Error>)
      requires Valid()
      modifies this, uids, data
      ensures Valid() && trace == Step(old(trace), EraseOp(uid))
      ensures uids == old(uids) && data == old(data)
      ensures r == if uid in old(trace.live) then Ok(()) else Err(NotFound)
      ensures trace.live == old(trace.live) - {uid} && uid !in trace.live
    {
      ValidIffLive(trace, uid);
      if !IsLive(uid) {
        EraseOther(trace, uid);
        return Err(NotFound);
      }
      EraseLive(trace, uid);
      Unlink(uid);
      trace := Step(trace, EraseOp(uid));
      r := Ok(());
    }

    /** Puts the slot of an object at the head of the free list and destroys the object. */
    method Unlink(uid: Uid)
      requires uid.index < uids.Length == data.Length && size > 0 && data[uid.index].Some?
      modifies `next, `size, uids, data
      ensures next == uid && size == old(size) - 1
      ensures uids[..] == old(uids[..])[uid.index := old(next)]
      ensures data[..] == old(data[..])[uid.index := None]
    {
      var idx := uid.index;
      uids[idx] := next;
      next := uid;
      size := size - 1;
      data[idx] := None;
    }

    /** Gives the place of the object, as the pointer into the storage does. */
    method TryGet(uid: Uid) returns (r: Result<nat, Error>)
      requires Valid()
      ensures r == if uid in trace.live then Ok(uid.index) else Err(NotFound)
      ensures r.Ok? ==> r.value < data.Length && data[r.value] == Some(trace.live[uid])
      ensures r.Ok? ==> forall u :: u in trace.live && u.index == r.value ==> u == uid
    {
      ValidIffLive(trace, uid);
      if !IsLive(uid) { return Err(NotFound); }
      SlotOfLive(trace, uid.index);
      r := Ok(uid.index);
    }

    /** Changes a live object in place, through the pointer that `try_get` gives. */
    method Assign(uid: Uid, item: T) returns (r: Result<(), Error>)
      requires Valid()
      modifies `trace, data
      ensures Valid()
      ensures r == if uid in old(trace.live) then Ok(()) else Err(NotFound)
      ensures trace.live == if r.Ok? then old(trace.live)[uid := item] else old(trace.live)
      ensures trace.issued == old(trace.issued) && trace.erased == old(trace.erased)
    {
      var slot := TryGet(uid);
      if slot.Err? { return Err(slot.error); }
      AssignKeepsInv(trace, uid, item);
      data[slot.value] := Some(item);
      trace := Assigned(trace, uid, item);
      r := Ok(());
    }

    /** Finds the live object in the lowest slot; only slots holding an object are compared. */
    method Find(item: T) returns (r: Result<Uid, Error>)
      requires Valid()
      ensures r.Ok? ==> r.value in trace.live && trace.live[r.value] == item
      ensures r.Ok? ==> forall u :: u in trace.live && trace.live[u] == item ==> r.value.index <= u.index
      ensures r.Err? ==> r == Err(NotFound) && forall u :: u in trace.live ==> trace.live[u] != item
    {
      var i := 0;
      while i < uids.Length
        invariant 0 <= i <= uids.Length
        invariant forall u :: u in trace.live && u.index < i ==> trace.live[u] != item
      {
        ValidIffLive(trace, uids[i]);
        if IsLive(uids[i]) {
          SlotOfLive(trace, i);
          if data[i].value == item { return Ok(uids[i]); }
        }
        forall u | u in trace.live && u.index == i ensures trace.live[u] != item {
          ValidIffLive(trace, u);
        }
        i := i + 1;
      }
      LiveInRange(trace);
      r := Err(NotFound);
    }

    /** Destroys the live objects, each once and in slot order, and no other slot, and starts over empty. */
    method Deinitialize() returns (destroyed: seq<Uid>)
      requires Valid()
      modifies this, data
      ensures Valid() && trace == Start(0)
      ensures forall u :: u in destroyed <==> u in old(trace.live)
      ensures forall j, k :: 0 <= j < k < |destroyed| ==> destroyed[j].index < destroyed[k].index
      ensures forall i :: 0 <= i < old(data).Length ==> old(data)[i] == None
    {
      OwnWordsAreLive(trace, uids.Length);
      LiveInRange(trace);
      forall i | 0 <= i < uids.Length ensures uids[i].index == i <==> data[i].Some? {
        SlotOfLive(trace, i);
      }
      destroyed := DestroyObjects();
      ResetValues();
    }

    method DestroyObjects() returns (destroyed: seq<Uid>)
      requires uids.Length == data.Length
      requires forall i :: 0 <= i < uids.Length ==> (uids[i].index == i <==> data[i].Some?)
      modifies data
      ensures destroyed == OwnWords(uids[..], uids.Length)
      ensures forall i :: 0 <= i < data.Length ==> data[i] == None
    {
      destroyed := [];
      var i := 0;
      while i < uids.Length
        invariant 0 <= i <= uids.Length
        invariant forall k :: 0 <= k < i ==> data[k] == None
        invariant forall k :: i <= k < data.Length ==> data[k] == old(data[k])
        invariant destroyed == OwnWords(uids[..], i)
      {
        if uids[i].index == i {
          assert data[i].Some?;  // an object is there to be destroyed
          data[i] := None;
          destroyed := destroyed + [uids[i]];
        }
        i := i + 1;
      }
    }

    method ResetValues()
      modifies this
      ensures Valid() && trace == Start(0) && fresh(uids) && fresh(data)
    {
      uids := new Uid[0];
      data := new Option<T>[0];
      size, next := 0, Uid(0, 0);
      trace := Start(0);
      StartKeepsInv<T>(0);
      assert uids[..] == InitialUids(0) && data[..] == InitialTable<T>(0).data;
    }
  }
}
