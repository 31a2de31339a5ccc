/**
  The hash table itself: the operations of `FixedMap` as they update its bucket array in place, each
  proved to do what the value-level model in `ProbeTables` says, with the errors it says.
 */
module FixedMaps {
  import opened Wrappers
  import opened ProbeTables
  import opened TableIteration

  class FixedMap<K(==), V(==)> {
    const hash: K -> nat
    var data: array<Bucket<K, V>>
    var size: nat

    /** `size` counts the occupied buckets. Nothing more holds of every table: see `EraseLosesCollidingKey`. */
    ghost predicate Valid()
      reads this, data
    {
      size == Size(data[..])
    }

    constructor (hash: K -> nat)
      ensures Valid() && data[..] == [] && this.hash == hash && fresh(data)
    {
      this.hash := hash;
      data := new Bucket<K, V>[0];
      size := 0;
    }

    /** The bucket holding the key behind none but other keys on its way, or -1 if there is no such bucket. */
    method FindMatchingBucket(key: K) returns (r: int)
      ensures match FindMatching(hash, data[..], key)
              case Some(i) => r == i
              case None => r == -1
      ensures -1 <= r < data.Length
      ensures forall i :: 0 <= i < data.Length ==>
                (r == i <==>
                 && data[i].Full? && data[i].key == key
                 && forall j :: 0 <= j < data.Length && Before(hash(key) % data.Length, j, i) ==>
                      data[j].Full? && data[j].key != key)
    {
      forall i | 0 <= i < data.Length
        ensures FindMatching(hash, data[..], key) == Some(i) <==>
                && data[i].Full? && data[i].key == key
                && forall j :: 0 <= j < data.Length && Before(hash(key) % data.Length, j, i) ==>
                     data[j].Full? && data[j].key != key
      {
        FindMatchingIs(hash, data[..], key, i);
      }
      r := ProbeForKey(key);
    }

    method ProbeForKey(key: K) returns (r: int)
      ensures match FindMatching(hash, data[..], key)
              case Some(i) => r == i
              case None => r == -1
    {
      if data.Length == 0 { return -1; }
      var start := hash(key) % data.Length;
      var index := start;
      ghost var d := 0;
      while data[index].Full?
        invariant d < data.Length && index == ProbeTables.At(data.Length, start, d)
        invariant FindMatching(hash, data[..], key) == Search(data[..], key, start, d)
        decreases data.Length - d
      {
        if data[index].key == key { return index; }
        NextIndex(data.Length, start, d);
        index := (index + 1) % data.Length;
        d := d + 1;
        if index == start { return -1; }
      }
      r := -1;
    }

    /** The first free bucket on the key's way, or -1 if no bucket is free. */
    method FindEmptyBucket(key: K) returns (r: int)
      ensures match FindEmpty(hash, data[..], key)
              case Some(i) => r == i
              case None => r == -1
      ensures -1 <= r < data.Length
      ensures forall i :: 0 <= i < data.Length ==>
                (r == i <==>
                 && data[i].Empty?
                 && forall j :: 0 <= j < data.Length && Before(hash(key) % data.Length, j, i) ==> data[j].Full?)
    {
      forall i | 0 <= i < data.Length
        ensures FindEmpty(hash, data[..], key) == Some(i) <==>
                && data[i].Empty?
                && forall j :: 0 <= j < data.Length && Before(hash(key) % data.Length, j, i) ==> data[j].Full?
      {
        FindEmptyIs(hash, data[..], key, i);
      }
      r := ProbeForFree(key);
    }

    method ProbeForFree(key: K) returns (r: int)
      ensures match FindEmpty(hash, data[..], key)
              case Some(i) => r == i
              case None => r == -1
    {
      if data.Length == 0 { return -1; }
      var start := hash(key) % data.Length;
      var index := start;
      ghost var d := 0;
      while data[index].Full?
        invariant d < data.Length && index == ProbeTables.At(data.Length, start, d)
        invariant FindEmpty(hash, data[..], key) == SearchEmpty(data[..], start, d)
        decreases data.Length - d
      {
        NextIndex(data.Length, start, d);
        index := (index + 1) % data.Length;
        d := d + 1;
        if index == start { return -1; }
      }
      r := index;
    }

    method At(key: K) returns (r: Result<V, Error>)
      ensures r == match Lookup(hash, data[..], key) case Some(v) => Ok(v) case None => Err(InvalidKey)
    {
      var i := FindMatchingBucket(key);
      if i == -1 { return Err(InvalidKey); }
      r := Ok(data[i].value);
    }

    method Emplace(key: K, value: V) returns (r: Result<(), Error>)
      requires Valid()
      modifies this`size, data
      ensures Valid() && (data[..], r) == ProbeTables.Emplace(hash, old(data[..]), key, value)
    {
      var match_ := FindMatchingBucket(key);
      if match_ != -1 { return Err(DuplicateKey); }
      var i := FindEmptyBucket(key);
      if i == -1 { return Err(ContainerFull); }
      SizeUpdate(data[..], i, Full(key, value));
      data[i] := Full(key, value);
      size := size + 1;
      assert data[..] == old(data[..])[i := Full(key, value)];
      r := Ok(());
    }

    method Update(key: K, value: V) returns (r: Result<(), Error>)
      requires Valid()
      modifies data
      ensures Valid() && (data[..], r) == ProbeTables.Update(hash, old(data[..]), key, value)
    {
      var i := FindMatchingBucket(key);
      if i == -1 { return Err(InvalidKey); }
      SizeUpdate(data[..], i, Full(key, value));
      data[i] := Full(key, value);
      assert data[..] == old(data[..])[i := Full(key, value)];
      r := Ok(());
    }

    method InsertOrAssign(key: K, value: V) returns (r: Result<(), Error>)
      requires Valid()
      modifies this`size, data
      ensures Valid() && (data[..], r) == ProbeTables.InsertOrAssign(hash, old(data[..]), key, value)
    {
      var i := FindMatchingBucket(key);
      if i != -1 {
        SizeUpdate(data[..], i, Full(key, value));
        data[i] := Full(key, value);
        assert data[..] == old(data[..])[i := Full(key, value)];
        r := Ok(());
      } else {
        r := Emplace(key, value);
      }
    }

    /** `operator[]`, returning the bucket of the value it refers to. */
    method Subscript(key: K, default: V) returns (r: Result<(), Error>, ref: int)
      requires Valid()
      modifies this`size, data
      ensures Valid() && (data[..], r) == ProbeTables.Subscript(hash, old(data[..]), key, default)
      ensures r.Ok? ==> 0 <= ref < data.Length && FindMatching(hash, data[..], key) == Some(ref)
    {
      ref := FindMatchingBucket(key);
      if ref == -1 {
        r := Emplace(key, default);
        if r.Err? { return; }
        ref := FindMatchingBucket(key);
        if ref == -1 {
          r := Err(InvalidKey);
          return;
        }
      }
      r := Ok(());
    }

    method Erase(key: K) returns (r: Result<(), Error>)
      requires Valid()
      modifies this`size, data
      ensures Valid() && (data[..], r) == ProbeTables.Erase(hash, old(data[..]), key)
    {
      var i := FindMatchingBucket(key);
      if i == -1 { return Err(InvalidKey); }
      FreeBucket(i);
      r := Ok(());
    }

    method FreeBucket(i: nat)
      requires Valid() && i < data.Length && data[i].Full?
      modifies this`size, data
      ensures Valid() && data[..] == old(data[..])[i := Empty]
    {
      SizeUpdate(data[..], i, Empty);
      data[i] := Empty;
      size := size - 1;
      assert data[..] == old(data[..])[i := Empty];
    }

    method Clear()
      modifies this`size, data
      ensures Valid() && data[..] == Blank(data.Length)
      ensures size == 0 && forall k :: 0 <= k < data.Length ==> data[k] == Empty
    {
      var i := 0;
      while i < data.Length
        invariant 0 <= i <= data.Length
        invariant forall k :: 0 <= k < i ==> data[k] == Empty
      {
        if data[i].Full? { data[i] := Empty; }
        i := i + 1;
      }
      size := 0;
      SizeAllFull(data[..]);
    }

    /** Without memory for the larger array everything stays as it was. */
    method Reserve(capacity: nat, allocates: bool) returns (r: Result<(), Error>)
      requires Valid()
      modifies this
      ensures Valid()
      ensures capacity > old(data).Length && !allocates ==> unchanged(this) && unchanged(data) && r == Err(OutOfMemory)
      ensures capacity <= old(data).Length || allocates ==>
                (data[..], r) == ProbeTables.Reserve(hash, old(data[..]), capacity)
      ensures data == old(data) || fresh(data)
    {
      if capacity > data.Length {
        if !allocates { return Err(OutOfMemory); }
        var src := data;
        data := new Bucket<K, V>[capacity](_ => Empty);
        size := 0;
        SizeAllFull(data[..]);
        assert data[..] == Blank(capacity);
        r := EmplaceAll(src);
      } else {
        r := Ok(());
      }
    }

    /** The rehash loop shared by `reserve` and `copy_from`, which may run over its own table once that is empty. */
    method EmplaceAll(src: array<Bucket<K, V>>) returns (r: Result<(), Error>)
      requires Valid() && (src != data || data[..] == Blank(data.Length))
      modifies this`size, data
      ensures Valid() && (data[..], r) == Rehash(hash, old(src[..]), old(data[..]))
    {
      var i := 0;
      while i < src.Length
        invariant 0 <= i <= src.Length && Valid() && src[..] == old(src[..])
        invariant Rehash(hash, src[i..], data[..]) == Rehash(hash, src[..], old(data[..]))
      {
        assert src[i..][1..] == src[i + 1..];
        if src[i].Full? {
          r := Emplace(src[i].key, src[i].value);
          if r.Err? { return; }
        }
        i := i + 1;
      }
      r := Ok(());
    }

    /** A table copied to itself is cleared before its entries are read, and so loses all of them. */
    method CopyFrom(other: FixedMap<K, V>) returns (r: Result<(), Error>)
      requires Valid() && other.Valid() && (other != this ==> other.data != data)
      modifies this`size, data
      ensures Valid()
      ensures other != this ==>
                && (data[..], r) == ProbeTables.CopyFrom(hash, old(data[..]), old(other.data[..]))
                && other.Valid() && other.data[..] == old(other.data[..])
      ensures other == this ==> r == Ok(()) && data[..] == Blank(data.Length)
    {
      if other.size > data.Length { return Err(ContainerFull); }
      Clear();
      if other == this { RehashBlank(hash, data.Length, data[..]); }
      r := EmplaceAll(other.data);
    }

    /** `operator==`: equal capacities, sizes and buckets, which for valid tables is equality of the bucket arrays. */
    method Equals(other: FixedMap<K, V>) returns (r: bool)
      requires Valid() && other.Valid()
      ensures r <==> data[..] == other.data[..]
    {
      if data.Length != other.data.Length || size != other.size { return false; }
      var i := 0;
      while i < data.Length
        invariant 0 <= i <= data.Length
        invariant forall k :: 0 <= k < i && data[k].Full? ==> other.data[k] == data[k]
      {
        if data[i].Full? {
          if !other.data[i].Full? || data[i] != other.data[i] { return false; }
        }
        i := i + 1;
      }
      SameOccupied(data[..], other.data[..]);
      r := true;
    }

    /**
      `Iterator::operator+=`, told by how many occupied buckets are before the iterator. An iterator at the
      end of a table with buckets may not be moved.
     */
    method Advance(from: nat, offset: int) returns (index: nat)
      requires from < data.Length || data.Length == from == 0
      ensures index == Shift(data[..], from, offset) && index <= data.Length
      ensures data.Length > 0 && offset >= 0 ==>
                (index < data.Length <==> Size(data[..from]) + offset < Size(data[..]))
      ensures data.Length > 0 && offset >= 0 && index < data.Length ==>
                data[index].Full? && Size(data[..index]) == Size(data[..from]) + offset
      ensures data.Length > 0 && offset < 0 && Size(data[..from]) + offset >= 0 ==>
                index < data.Length && data[index].Full? && Size(data[..index]) == Size(data[..from]) + offset
      ensures data.Length > 0 && offset < 0 && Size(data[..from]) + offset < 0 ==> index == 0
    {
      index := from;
      if data.Length == 0 { return; }
      ShiftIsRank(from, offset);
      index := SkipEmpty(from);
      if (offset > 0 && index >= data.Length) || (offset < 0 && index <= 0) { return; }
      if offset >= 0 { index := Forward(index, offset); } else { index := Backward(index, -offset); }
    }

    lemma ShiftIsRank(from: nat, offset: int)
      requires from < data.Length
      ensures var i := Shift(data[..], from, offset);
              && i <= data.Length
              && (offset >= 0 ==> (i < data.Length <==> Size(data[..from]) + offset < Size(data[..])))
              && (offset >= 0 && i < data.Length ==> data[i].Full? && Size(data[..i]) == Size(data[..from]) + offset)
              && (offset < 0 && Size(data[..from]) + offset >= 0 ==>
                    i < data.Length && data[i].Full? && Size(data[..i]) == Size(data[..from]) + offset)
              && (offset < 0 && Size(data[..from]) + offset < 0 ==> i == 0)
    {
      var i := Shift(data[..], from, offset);
      ShiftRank(data[..], from, offset);
      assert data[..][..from] == data[..from] && data[..][..i] == data[..i];
    }

    /** From the bucket given to the first occupied one. */
    method SkipEmpty(from: nat) returns (index: nat)
      requires from < data.Length
      ensures index == Nth(data[..], from, 0)
      ensures forall k: nat :: Nth(data[..], from, k) == Nth(data[..], index, k)
    {
      index := from;
      while true
        invariant from <= index < data.Length
        invariant forall k: nat :: Nth(data[..], from, k) == Nth(data[..], index, k)
        decreases data.Length - index
      {
        if data[index].Full? { break; }
        index := index + 1;
        if index >= data.Length { break; }
      }
    }

    method Forward(from: nat, offset: nat) returns (index: nat)
      requires from <= data.Length && (from < data.Length ==> data[from].Full?)
      requires from == data.Length ==> offset == 0
      ensures index == Nth(data[..], from, offset)
    {
      index := from;
      var left: nat := offset;
      while left > 0
        invariant index < data.Length || left == 0
        invariant left == 0 ==> index == Nth(data[..], from, offset)
        invariant left > 0 ==> Nth(data[..], from, offset) == Nth(data[..], index + 1, left - 1)
        decreases data.Length - index
      {
        index := index + 1;
        if index >= data.Length { break; }
        if data[index].Full? { left := left - 1; }
      }
    }

    method Backward(from: nat, offset: nat) returns (index: nat)
      requires 0 < from <= data.Length
      ensures index == Back(data[..], from, offset)
    {
      index := from;
      var left: nat := offset;
      while left > 0
        invariant 0 < index <= data.Length
        invariant Back(data[..], from, offset) == Back(data[..], index, left)
        decreases index
      {
        index := index - 1;
        if index <= 0 { break; }
        if data[index].Full? { left := left - 1; }
      }
    }

    method Begin() returns (index: nat)
      ensures index == Nth(data[..], 0, 0) && index <= data.Length
      ensures forall k :: 0 <= k < index ==> data[k].Empty?
      ensures index < data.Length ==> data[index].Full?
    {
      index := Advance(0, 0);
      NthSkips(data[..], 0);
    }

    /** `end()` is `begin()` advanced by `size`, which is one past the last bucket. */
    method End() returns (index: nat)
      requires Valid()
      ensures index == data.Length
    {
      TraversalVisitsAll(data[..]);
      index := Advance(0, size);
    }

    /** The loop from `begin()` to `end()` by `++` meets every occupied bucket, once, in the order of the buckets. */
    method Traversal() returns (visited: seq<nat>)
      requires Valid()
      ensures forall j, k :: 0 <= j < k < |visited| ==> visited[j] < visited[k]
      ensures forall j :: 0 <= j < |visited| ==> visited[j] < data.Length && data[visited[j]].Full?
      ensures forall i :: 0 <= i < data.Length && data[i].Full? ==> i in visited
    {
      visited := [];
      var index := Begin();
      var end := End();
      while index != end
        invariant index <= end == data.Length && (index < end ==> data[index].Full?)
        invariant forall j, k :: 0 <= j < k < |visited| ==> visited[j] < visited[k]
        invariant forall j :: 0 <= j < |visited| ==> visited[j] < index && data[visited[j]].Full?
        invariant forall i :: 0 <= i < index && data[i].Full? ==> i in visited
        decreases end - index
      {
        visited := visited + [index];
        var next := Advance(index, 1);
        NextOccupied(data[..], index, next);
        index := next;
      }
    }
  }
}
