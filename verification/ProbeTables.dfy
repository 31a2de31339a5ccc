/**
  The value-level model of `FixedMap`: an open-addressing table with linear probing, what its
  operations do to the bucket array, and when that agrees with a plain finite map. The hash function
  is a parameter of everything here.
 */
module ProbeTables {
  import opened Wrappers

  datatype Error = OutOfMemory | InvalidKey | DuplicateKey | ContainerFull | InvalidIterator

  datatype Bucket<K, V> = Empty | Full(key: K, value: V)

  // ---------------------------------------------------------------------------------------------
  // Cyclic positions
  // ---------------------------------------------------------------------------------------------

  function Home<K>(hash: K -> nat, key: K, n: nat): (i: nat)
    requires n > 0
    ensures i < n
  {
    hash(key) % n
  }

  /** The index reached from `start` in `d` steps around a table of `n` buckets. */
  function At(n: nat, start: nat, d: nat): (i: nat)
    requires start < n && d < n
    ensures i < n
  {
    if start + d < n then start + d else start + d - n
  }

  /** The number of steps from `start` to `i`. */
  function Dist(n: nat, start: nat, i: nat): (d: nat)
    requires start < n && i < n
    ensures d < n && At(n, start, d) == i
  {
    if start <= i then i - start else i + n - start
  }

  lemma SmallMod(x: nat, n: nat)
    requires x < n
    ensures x % n == x
  {
  }

  lemma SelfMod(n: nat)
    requires n > 0
    ensures n % n == 0
  {
  }

  /** The probe loops advance the index by `(index + 1) % capacity`: one step of `At`. */
  lemma NextIndex(n: nat, start: nat, d: nat)
    requires start < n && d < n
    ensures (At(n, start, d) + 1) % n == if d + 1 < n then At(n, start, d + 1) else start
    ensures Dist(n, start, At(n, start, d)) == d
  {
    var i := At(n, start, d);
    if i + 1 < n { SmallMod(i + 1, n); } else { SelfMod(n); }
  }

  // ---------------------------------------------------------------------------------------------
  // Probing
  // ---------------------------------------------------------------------------------------------

  function Search<K(==), V>(t: seq<Bucket<K, V>>, key: K, start: nat, d: nat): (r: Option<nat>)
    requires start < |t| && d <= |t|
    ensures r.Some? ==> r.value < |t| && t[r.value].Full? && t[r.value].key == key
    decreases |t| - d
  {
    if d == |t| then None
    else
      var i := At(|t|, start, d);
      if t[i].Empty? then None else if t[i].key == key then Some(i) else Search(t, key, start, d + 1)
  }

  function SearchEmpty<K, V>(t: seq<Bucket<K, V>>, start: nat, d: nat): (r: Option<nat>)
    requires start < |t| && d <= |t|
    ensures r.Some? ==> r.value < |t| && t[r.value].Empty?
    decreases |t| - d
  {
    if d == |t| then None
    else
      var i := At(|t|, start, d);
      if t[i].Empty? then Some(i) else SearchEmpty(t, start, d + 1)
  }

  function FindMatching<K(==), V>(hash: K -> nat, t: seq<Bucket<K, V>>, key: K): (r: Option<nat>)
    ensures r.Some? ==> r.value < |t| && t[r.value].Full? && t[r.value].key == key
  {
    if |t| == 0 then None else Search(t, key, Home(hash, key, |t|), 0)
  }

  function FindEmpty<K, V>(hash: K -> nat, t: seq<Bucket<K, V>>, key: K): (r: Option<nat>)
    ensures r.Some? ==> r.value < |t| && t[r.value].Empty?
  {
    if |t| == 0 then None else SearchEmpty(t, Home(hash, key, |t|), 0)
  }

  /** Every bucket strictly between `start` and `i`, cyclically, and `start` itself, is occupied. */
  ghost predicate ArcFull<K, V>(t: seq<Bucket<K, V>>, start: nat, i: nat)
    requires start < |t| && i < |t|
  {
    forall j :: 0 <= j < |t| && Dist(|t|, start, j) < Dist(|t|, start, i) ==> t[j].Full?
  }

  lemma {:induction false} SearchFinds<K, V>(t: seq<Bucket<K, V>>, key: K, start: nat, d: nat, i: nat)
    requires start < |t| && i < |t| && Distinct(t)
    requires t[i].Full? && t[i].key == key && ArcFull(t, start, i) && d <= Dist(|t|, start, i)
    ensures Search(t, key, start, d) == Some(i)
    decreases |t| - d
  {
    var j := At(|t|, start, d);
    NextIndex(|t|, start, d);
    if d < Dist(|t|, start, i) && t[j].key != key {
      SearchFinds(t, key, start, d + 1, i);
    }
  }

  /** Whatever a search from step `d` returns, all buckets on the way to it are occupied. */
  lemma {:induction false} SearchPath<K, V>(t: seq<Bucket<K, V>>, key: K, start: nat, d: nat)
    requires start < |t| && d <= |t|
    ensures var r := Search(t, key, start, d);
            r.Some? ==> d <= Dist(|t|, start, r.value) &&
                        forall j :: 0 <= j < |t| && d <= Dist(|t|, start, j) < Dist(|t|, start, r.value) ==> t[j].Full?
    decreases |t| - d
  {
    if d < |t| {
      NextIndex(|t|, start, d);
      SearchPath(t, key, start, d + 1);
    }
  }

  lemma {:induction false} SearchEmptyPath<K, V>(t: seq<Bucket<K, V>>, start: nat, d: nat)
    requires start < |t| && d <= |t|
    ensures var r := SearchEmpty(t, start, d);
            match r
            case Some(i) =>
              && d <= Dist(|t|, start, i)
              && forall j :: 0 <= j < |t| && d <= Dist(|t|, start, j) < Dist(|t|, start, i) ==> t[j].Full?
            case None => forall j :: 0 <= j < |t| && d <= Dist(|t|, start, j) ==> t[j].Full?
    decreases |t| - d
  {
    if d < |t| {
      NextIndex(|t|, start, d);
      SearchEmptyPath(t, start, d + 1);
    }
  }

  // ---------------------------------------------------------------------------------------------
  // The table as a map
  // ---------------------------------------------------------------------------------------------

  ghost predicate Distinct<K, V>(t: seq<Bucket<K, V>>) {
    forall i, j :: 0 <= i < |t| && 0 <= j < |t| && t[i].Full? && t[j].Full? && t[i].key == t[j].key ==> i == j
  }

  /** The stored keys are distinct, and each is reachable from its home bucket over occupied buckets. */
  ghost predicate Placed<K, V>(hash: K -> nat, t: seq<Bucket<K, V>>) {
    && Distinct(t)
    && forall i :: 0 <= i < |t| && t[i].Full? ==> ArcFull(t, Home(hash, t[i].key, |t|), i)
  }

  ghost function Contents<K, V>(t: seq<Bucket<K, V>>): map<K, V> {
    if t == [] then map[]
    else if t[0].Empty? then Contents(t[1..])
    else Contents(t[1..])[t[0].key := t[0].value]
  }

  lemma {:induction false} ContentsHold<K, V>(t: seq<Bucket<K, V>>)
    ensures forall k :: k in Contents(t) <==> exists i :: 0 <= i < |t| && t[i].Full? && t[i].key == k
    ensures Distinct(t) ==> forall i :: 0 <= i < |t| && t[i].Full? ==>
              t[i].key in Contents(t) && Contents(t)[t[i].key] == t[i].value
  {
    if t != [] {
      var rest := t[1..];
      ContentsHold(rest);
      assert forall i :: 0 < i < |t| ==> t[i] == rest[i - 1];
      forall k ensures k in Contents(t) <==> exists i :: 0 <= i < |t| && t[i].Full? && t[i].key == k {
        if k in Contents(rest) {
          var i :| 0 <= i < |rest| && rest[i].Full? && rest[i].key == k;
          assert t[i + 1] == rest[i];
        }
      }
    }
  }

  ghost function Get<K, V>(m: map<K, V>, key: K): Option<V> {
    if key in m then Some(m[key]) else None
  }

  function Lookup<K(==), V>(hash: K -> nat, t: seq<Bucket<K, V>>, key: K): Option<V> {
    var i := FindMatching(hash, t, key);
    if i.Some? then Some(t[i.value].value) else None
  }

  /** Lookup in a placed table is lookup in the map it stands for. */
  lemma {:induction false} LookupAgrees<K, V>(hash: K -> nat, t: seq<Bucket<K, V>>, key: K)
    requires Placed(hash, t)
    ensures Lookup(hash, t, key) == Get(Contents(t), key)
    ensures forall i :: 0 <= i < |t| && t[i].Full? && t[i].key == key ==> FindMatching(hash, t, key) == Some(i)
  {
    ContentsHold(t);
    forall i | 0 <= i < |t| && t[i].Full? && t[i].key == key ensures FindMatching(hash, t, key) == Some(i) {
      SearchFinds(t, key, Home(hash, key, |t|), 0, i);
    }
  }

  /** Number of occupied buckets. */
  function Size<K, V>(t: seq<Bucket<K, V>>): (s: nat)
    ensures s <= |t|
  {
    if t == [] then 0 else Size(t[..|t| - 1]) + if t[|t| - 1].Full? then 1 else 0
  }

  lemma {:induction false} SizeUpdate<K, V>(t: seq<Bucket<K, V>>, i: nat, b: Bucket<K, V>)
    requires i < |t|
    ensures Size(t[i := b]) == Size(t) - (if t[i].Full? then 1 else 0) + (if b.Full? then 1 else 0)
  {
    var init := t[..|t| - 1];
    if i < |t| - 1 {
      SizeUpdate(init, i, b);
      assert t[i := b][..|t| - 1] == init[i := b];
    } else {
      assert t[i := b][..|t| - 1] == init;
    }
  }

  lemma {:induction false} SizeAllFull<K, V>(t: seq<Bucket<K, V>>)
    ensures Size(t) == |t| <==> forall i :: 0 <= i < |t| ==> t[i].Full?
    ensures Size(t) == 0 <==> forall i :: 0 <= i < |t| ==> t[i].Empty?
  {
    if t != [] {
      var init := t[..|t| - 1];
      SizeAllFull(init);
      assert forall i :: 0 <= i < |init| ==> init[i] == t[i];
    }
  }

  lemma {:induction false} SizeFront<K, V>(t: seq<Bucket<K, V>>)
    requires t != []
    ensures Size(t) == Size(t[1..]) + if t[0].Full? then 1 else 0
  {
    var init := t[..|t| - 1];
    if init != [] {
      SizeFront(init);
      assert init[1..] == t[1..][..|t[1..]| - 1];
    }
  }

  /** The occupied buckets are as many as the keys they hold. */
  lemma {:induction false} ContentsSize<K, V>(t: seq<Bucket<K, V>>)
    requires Distinct(t)
    ensures |Contents(t)| == Size(t)
  {
    if t != [] {
      SizeFront(t);
      ContentsSize(t[1..]);
      ContentsHold(t[1..]);
    }
  }

  /** The probe for a free bucket fails exactly when the table is full. */
  lemma {:induction false} FindEmptySpec<K, V>(hash: K -> nat, t: seq<Bucket<K, V>>, key: K)
    ensures FindEmpty(hash, t, key) == None <==> Size(t) == |t|
    ensures FindEmpty(hash, t, key).Some? ==> ArcFull(t, Home(hash, key, |t|), FindEmpty(hash, t, key).value)
  {
    SizeAllFull(t);
    if |t| > 0 {
      SearchEmptyPath(t, Home(hash, key, |t|), 0);
    }
  }

  // ---------------------------------------------------------------------------------------------
  // Where probes go, told by the hash value
  // ---------------------------------------------------------------------------------------------

  /** Going up from `start`, and from the end of the table on at index 0, bucket `j` comes before bucket `i`. */
  predicate Before(start: nat, j: nat, i: nat) {
    if start <= i then start <= j < i else start <= j || j < i
  }

  lemma BeforeIsNearer(n: nat, start: nat, j: nat, i: nat)
    requires start < n && j < n && i < n
    ensures Dist(n, start, j) < Dist(n, start, i) <==> Before(start, j, i)
  {
  }

  lemma {:induction false} SearchStops<K, V>(t: seq<Bucket<K, V>>, key: K, start: nat, d: nat, i: nat)
    requires start < |t| && d <= |t| && i < |t|
    ensures Search(t, key, start, d) == Some(i) <==>
            && d <= Dist(|t|, start, i) && t[i].Full? && t[i].key == key
            && forall j :: 0 <= j < |t| && d <= Dist(|t|, start, j) < Dist(|t|, start, i) ==>
                 t[j].Full? && t[j].key != key
    decreases |t| - d
  {
    if d < |t| {
      NextIndex(|t|, start, d);
      SearchStops(t, key, start, d + 1, i);
      assert forall j :: 0 <= j < |t| && Dist(|t|, start, j) == d ==> j == At(|t|, start, d);
    }
  }

  /**
    A key is found in a bucket exactly if the bucket holds it and every bucket before, from the one the hash
    value names modulo the capacity, holds another key.
   */
  lemma {:induction false} FindMatchingIs<K, V>(hash: K -> nat, t: seq<Bucket<K, V>>, key: K, i: nat)
    requires i < |t|
    ensures FindMatching(hash, t, key) == Some(i) <==>
            && t[i].Full? && t[i].key == key
            && forall j :: 0 <= j < |t| && Before(hash(key) % |t|, j, i) ==> t[j].Full? && t[j].key != key
  {
    var start := hash(key) % |t|;
    SearchStops(t, key, start, 0, i);
    forall j | 0 <= j < |t| ensures Dist(|t|, start, j) < Dist(|t|, start, i) <==> Before(start, j, i) {
      BeforeIsNearer(|t|, start, j, i);
    }
  }

  /** A free bucket is found exactly if it is the first one from there on. */
  lemma {:induction false} FindEmptyIs<K, V>(hash: K -> nat, t: seq<Bucket<K, V>>, key: K, i: nat)
    requires i < |t|
    ensures FindEmpty(hash, t, key) == Some(i) <==>
            t[i].Empty? && forall j :: 0 <= j < |t| && Before(hash(key) % |t|, j, i) ==> t[j].Full?
  {
    var start := hash(key) % |t|;
    SearchEmptyPath(t, start, 0);
    forall j, k | 0 <= j < |t| && 0 <= k < |t|
      ensures Dist(|t|, start, j) < Dist(|t|, start, k) <==> Before(start, j, k)
    {
      BeforeIsNearer(|t|, start, j, k);
    }
    if t[i].Empty? && forall j :: 0 <= j < |t| && Before(start, j, i) ==> t[j].Full? {
      var r := SearchEmpty(t, start, 0).value;
      assert !Before(start, r, i) && !Before(start, i, r);
    }
  }

  // ---------------------------------------------------------------------------------------------
  // Operations
  // ---------------------------------------------------------------------------------------------

  function Emplace<K(==), V>(hash: K -> nat, t: seq<Bucket<K, V>>, key: K, value: V)
    : (seq<Bucket<K, V>>, Result<(), Error>)
  {
    if FindMatching(hash, t, key).Some? then (t, Err(DuplicateKey))
    else
      match FindEmpty(hash, t, key)
      case None => (t, Err(ContainerFull))
      case Some(i) => (t[i := Full(key, value)], Ok(()))
  }

  function Update<K(==), V>(hash: K -> nat, t: seq<Bucket<K, V>>, key: K, value: V)
    : (seq<Bucket<K, V>>, Result<(), Error>)
  {
    match FindMatching(hash, t, key)
    case None => (t, Err(InvalidKey))
    case Some(i) => (t[i := Full(key, value)], Ok(()))
  }

  function InsertOrAssign<K(==), V>(hash: K -> nat, t: seq<Bucket<K, V>>, key: K, value: V)
    : (seq<Bucket<K, V>>, Result<(), Error>)
  {
    if FindMatching(hash, t, key).Some? then Update(hash, t, key, value) else Emplace(hash, t, key, value)
  }

  /** `operator[]`: inserts a default value under a missing key. */
  function Subscript<K(==), V>(hash: K -> nat, t: seq<Bucket<K, V>>, key: K, default: V)
    : (seq<Bucket<K, V>>, Result<(), Error>)
  {
    if FindMatching(hash, t, key).Some? then (t, Ok(()))
    else
      var (after, r) := Emplace(hash, t, key, default);
      if r.Err? then (after, r)
      else if FindMatching(hash, after, key).Some? then (after, Ok(())) else (after, Err(InvalidKey))
  }

  function Erase<K(==), V>(hash: K -> nat, t: seq<Bucket<K, V>>, key: K)
    : (seq<Bucket<K, V>>, Result<(), Error>)
  {
    match FindMatching(hash, t, key)
    case None => (t, Err(InvalidKey))
    case Some(i) => (t[i := Empty], Ok(()))
  }

  function Blank<K, V>(n: nat): seq<Bucket<K, V>> { seq(n, _ => Empty) }

  /** Emplaces the occupied buckets of `src` into `dst` in index order, stopping at the first failure. */
  function Rehash<K(==), V>(hash: K -> nat, src: seq<Bucket<K, V>>, dst: seq<Bucket<K, V>>)
    : (seq<Bucket<K, V>>, Result<(), Error>)
  {
    if src == [] then (dst, Ok(()))
    else if src[0].Empty? then Rehash(hash, src[1..], dst)
    else
      var (next, r) := Emplace(hash, dst, src[0].key, src[0].value);
      if r.Err? then (next, r) else Rehash(hash, src[1..], next)
  }

  /** Once the larger array is there: a failed allocation leaves the table as it is. */
  function Reserve<K(==), V>(hash: K -> nat, t: seq<Bucket<K, V>>, capacity: nat)
    : (seq<Bucket<K, V>>, Result<(), Error>)
  {
    if capacity > |t| then Rehash(hash, t, Blank(capacity)) else (t, Ok(()))
  }

  function CopyFrom<K(==), V>(hash: K -> nat, t: seq<Bucket<K, V>>, other: seq<Bucket<K, V>>)
    : (seq<Bucket<K, V>>, Result<(), Error>)
  {
    if Size(other) > |t| then (t, Err(ContainerFull)) else Rehash(hash, other, Blank(|t|))
  }

  /** Rehashing an empty table changes nothing. */
  lemma {:induction false} RehashBlank<K, V>(hash: K -> nat, n: nat, dst: seq<Bucket<K, V>>)
    ensures Rehash(hash, Blank(n), dst) == (dst, Ok(()))
  {
    if n > 0 {
      assert Blank<K, V>(n)[1..] == Blank(n - 1);
      RehashBlank(hash, n - 1, dst);
    }
  }

  /** A table is placed exactly if its keys are distinct and none has a free bucket before its own. */
  lemma {:induction false} PlacedIs<K, V>(hash: K -> nat, t: seq<Bucket<K, V>>)
    ensures Placed(hash, t) <==>
            && Distinct(t)
            && forall i, j :: 0 <= i < |t| && t[i].Full? && 0 <= j < |t| && Before(hash(t[i].key) % |t|, j, i) ==>
                 t[j].Full?
  {
    forall i, j | 0 <= i < |t| && t[i].Full? && 0 <= j < |t|
      ensures Dist(|t|, Home(hash, t[i].key, |t|), j) < Dist(|t|, Home(hash, t[i].key, |t|), i)
              <==> Before(hash(t[i].key) % |t|, j, i)
    {
      BeforeIsNearer(|t|, hash(t[i].key) % |t|, j, i);
    }
  }

  /**
    Where `emplace` puts a key: in the first free bucket from the one its hash value names modulo the
    capacity, and so in that very bucket if it is free. No other bucket changes.
   */
  lemma {:induction false} EmplacedFirstFree<K, V>(hash: K -> nat, t: seq<Bucket<K, V>>, key: K, value: V)
    returns (i: nat)
    requires Emplace(hash, t, key, value).1 == Ok(())
    ensures i < |t| && t[i].Empty? && Emplace(hash, t, key, value).0 == t[i := Full(key, value)]
    ensures forall j :: 0 <= j < |t| && Before(hash(key) % |t|, j, i) ==> t[j].Full?
    ensures t[hash(key) % |t|].Empty? ==> i == hash(key) % |t|
  {
    i := FindEmpty(hash, t, key).value;
    FindEmptyIs(hash, t, key, i);
    assert hash(key) % |t| != i ==> Before(hash(key) % |t|, hash(key) % |t|, i);
  }

  // ---------------------------------------------------------------------------------------------
  // Operations without erase keep the table placed and act on its contents as on a map
  // ---------------------------------------------------------------------------------------------

  lemma FillKeepsPlaced<K, V>(hash: K -> nat, t: seq<Bucket<K, V>>, i: nat, key: K, value: V)
    requires Placed(hash, t) && i < |t|
    requires t[i].Empty? && key !in Contents(t) && ArcFull(t, Home(hash, key, |t|), i)
    ensures Placed(hash, t[i := Full(key, value)])
    ensures Contents(t[i := Full(key, value)]) == Contents(t)[key := value]
  {
    ContentsHold(t);
    var after := t[i := Full(key, value)];
    forall j | 0 <= j < |after| && after[j].Full? ensures ArcFull(after, Home(hash, after[j].key, |after|), j) {
      if j != i { assert ArcFull(t, Home(hash, t[j].key, |t|), j); }
    }
    ContentsUpdate(t, i, key, value);
  }

  lemma {:induction false} ContentsUpdate<K, V>(t: seq<Bucket<K, V>>, i: nat, key: K, value: V)
    requires i < |t| && Distinct(t) && (t[i].Empty? || t[i].key == key)
    requires t[i].Empty? ==> key !in Contents(t)
    ensures Contents(t[i := Full(key, value)]) == Contents(t)[key := value]
  {
    var after := t[i := Full(key, value)];
    ContentsHold(t[1..]);
    if i == 0 {
      assert after[1..] == t[1..];
    } else {
      assert after[1..] == t[1..][i - 1 := Full(key, value)];
      ContentsUpdate(t[1..], i - 1, key, value);
      assert t[0].Full? ==> t[0].key != key;
    }
  }

  lemma {:induction false} ContentsRemove<K, V>(t: seq<Bucket<K, V>>, i: nat)
    requires i < |t| && Distinct(t) && t[i].Full?
    ensures Contents(t[i := Empty]) == Contents(t) - {t[i].key}
  {
    var after := t[i := Empty];
    ContentsHold(t[1..]);
    if i == 0 {
      assert after[1..] == t[1..];
    } else {
      assert after[1..] == t[1..][i - 1 := Empty];
      ContentsRemove(t[1..], i - 1);
    }
  }

  lemma EmplaceRefines<K, V>(hash: K -> nat, t: seq<Bucket<K, V>>, key: K, value: V)
    requires Placed(hash, t)
    ensures var (after, r) := Emplace(hash, t, key, value);
            && Placed(hash, after) && |after| == |t|
            && (key in Contents(t) ==> r == Err(DuplicateKey) && after == t)
            && (key !in Contents(t) && |Contents(t)| == |t| ==> r == Err(ContainerFull) && after == t)
            && (key !in Contents(t) && |Contents(t)| < |t| ==>
                  r == Ok(()) && Contents(after) == Contents(t)[key := value])
  {
    LookupAgrees(hash, t, key);
    FindEmptySpec(hash, t, key);
    ContentsSize(t);
    if key !in Contents(t) && Size(t) < |t| {
      FillKeepsPlaced(hash, t, FindEmpty(hash, t, key).value, key, value);
    }
  }

  lemma {:induction false} UpdateRefines<K, V>(hash: K -> nat, t: seq<Bucket<K, V>>, key: K, value: V)
    requires Placed(hash, t)
    ensures var (after, r) := Update(hash, t, key, value);
            && Placed(hash, after) && |after| == |t|
            && (key !in Contents(t) ==> r == Err(InvalidKey) && after == t)
            && (key in Contents(t) ==> r == Ok(()) && Contents(after) == Contents(t)[key := value])
  {
    LookupAgrees(hash, t, key);
    if key in Contents(t) {
      var i := FindMatching(hash, t, key).value;
      var after := t[i := Full(key, value)];
      forall j | 0 <= j < |after| && after[j].Full? ensures ArcFull(after, Home(hash, after[j].key, |after|), j) {
        assert ArcFull(t, Home(hash, t[j].key, |t|), j);
      }
      ContentsUpdate(t, i, key, value);
    }
  }

  lemma {:induction false} SubscriptRefines<K, V>(hash: K -> nat, t: seq<Bucket<K, V>>, key: K, default: V)
    requires Placed(hash, t)
    ensures var (after, r) := Subscript(hash, t, key, default);
            && Placed(hash, after) && |after| == |t|
            && (key in Contents(t) ==> r == Ok(()) && after == t)
            && (key !in Contents(t) && |Contents(t)| == |t| ==> r == Err(ContainerFull) && after == t)
            && (key !in Contents(t) && |Contents(t)| < |t| ==>
                  r == Ok(()) && Contents(after) == Contents(t)[key := default])
  {
    LookupAgrees(hash, t, key);
    EmplaceRefines(hash, t, key, default);
    LookupAgrees(hash, Emplace(hash, t, key, default).0, key);
  }

  lemma {:induction false} BlankIsPlaced<K, V>(hash: K -> nat, n: nat)
    ensures Placed(hash, Blank<K, V>(n)) && Contents(Blank<K, V>(n)) == map[]
  {
    if n > 0 {
      BlankIsPlaced<K, V>(hash, n - 1);
      assert Blank<K, V>(n)[1..] == Blank<K, V>(n - 1);
    }
  }

  lemma MoveEntry<K, V>(from: map<K, V>, to: map<K, V>, key: K, value: V)
    requires from.Keys !! to.Keys && key !in from && key !in to
    ensures to[key := value] + from == to + from[key := value]
    ensures from.Keys !! to[key := value].Keys
  {
  }

  /** Rehashing distinct new keys into a table with room for them all never fails and adds exactly them. */
  lemma {:induction false} RehashRefines<K, V>(hash: K -> nat, src: seq<Bucket<K, V>>, dst: seq<Bucket<K, V>>)
    requires Distinct(src) && Placed(hash, dst)
    requires Contents(src).Keys !! Contents(dst).Keys && |Contents(src)| + |Contents(dst)| <= |dst|
    ensures var (after, r) := Rehash(hash, src, dst);
            r == Ok(()) && Placed(hash, after) && |after| == |dst| && Contents(after) == Contents(dst) + Contents(src)
    decreases |src|
  {
    if src == [] {
      assert Contents(dst) + Contents(src) == Contents(dst);
    } else {
      ContentsHold(src[1..]);
      if src[0].Empty? {
        RehashRefines(hash, src[1..], dst);
      } else {
        assert src[0].key in Contents(src) && src[0].key !in Contents(src[1..]);
        MoveEntry(Contents(src[1..]), Contents(dst), src[0].key, src[0].value);
        EmplaceRefines(hash, dst, src[0].key, src[0].value);
        RehashRefines(hash, src[1..], Emplace(hash, dst, src[0].key, src[0].value).0);
      }
    }
  }

  /** `reserve` never fails on a placed table and keeps the map. */
  lemma ReserveRefines<K, V>(hash: K -> nat, t: seq<Bucket<K, V>>, capacity: nat)
    requires Placed(hash, t)
    ensures var (after, r) := Reserve(hash, t, capacity);
            && r == Ok(()) && Placed(hash, after) && Contents(after) == Contents(t)
            && |after| == if capacity > |t| then capacity else |t|
  {
    if capacity > |t| {
      BlankIsPlaced<K, V>(hash, capacity);
      ContentsSize(t);
      RehashRefines(hash, t, Blank(capacity));
      assert map[] + Contents(t) == Contents(t);
    }
  }

  /** Past its capacity check `copy_from` never fails, and the result stands for the map copied. */
  lemma CopyFromRefines<K, V>(hash: K -> nat, t: seq<Bucket<K, V>>, other: seq<Bucket<K, V>>)
    requires Placed(hash, t) && Distinct(other)
    ensures var (after, r) := CopyFrom(hash, t, other);
            && Placed(hash, after) && |after| == |t|
            && (|Contents(other)| > |t| ==> r == Err(ContainerFull) && after == t)
            && (|Contents(other)| <= |t| ==> r == Ok(()) && Contents(after) == Contents(other))
  {
    ContentsSize(other);
    if Size(other) <= |t| {
      BlankIsPlaced<K, V>(hash, |t|);
      RehashRefines(hash, other, Blank(|t|));
      assert map[] + Contents(other) == Contents(other);
    }
  }

  // ---------------------------------------------------------------------------------------------
  // Erase
  // ---------------------------------------------------------------------------------------------

  /** The probe arc of the key stored in bucket `i` passes over bucket `e`. */
  ghost predicate Crosses<K, V>(hash: K -> nat, t: seq<Bucket<K, V>>, e: nat, i: nat)
    requires e < |t| && i < |t|
  {
    t[i].Full? && Dist(|t|, Home(hash, t[i].key, |t|), e) < Dist(|t|, Home(hash, t[i].key, |t|), i)
  }

  lemma CrossesIs<K, V>(hash: K -> nat, t: seq<Bucket<K, V>>, e: nat, i: nat)
    requires e < |t| && i < |t|
    ensures Crosses(hash, t, e, i) <==> t[i].Full? && Before(hash(t[i].key) % |t|, e, i)
  {
    if t[i].Full? { BeforeIsNearer(|t|, hash(t[i].key) % |t|, e, i); }
  }

  /** What every key finds after the bucket `e` of a placed table has been emptied. */
  lemma {:induction false} LookupAfterErase<K, V>(hash: K -> nat, t: seq<Bucket<K, V>>, e: nat, key: K)
    requires Placed(hash, t) && e < |t| && t[e].Full?
    ensures t[e].key in Contents(t)
    ensures forall i :: 0 <= i < |t| && i != e && t[i].Full? && t[i].key == key ==>
              Lookup(hash, t[e := Empty], key) == if Crosses(hash, t, e, i) then None else Some(t[i].value)
    ensures key == t[e].key || key !in Contents(t) ==> Lookup(hash, t[e := Empty], key) == None
  {
    var after := t[e := Empty];
    var home := Home(hash, key, |t|);
    SearchPath(after, key, home, 0);
    ContentsHold(t);
    forall i | 0 <= i < |t| && i != e && t[i].Full? && t[i].key == key
      ensures Lookup(hash, after, key) == if Crosses(hash, t, e, i) then None else Some(t[i].value)
    {
      var r := FindMatching(hash, after, key);
      if !Crosses(hash, t, e, i) {
        assert ArcFull(t, home, i);
        assert ArcFull(after, home, i) by {
          forall j | 0 <= j < |t| && Dist(|t|, home, j) < Dist(|t|, home, i) ensures after[j].Full? {
            assert t[j].Full? && j != e;
          }
        }
        SearchFinds(after, key, home, 0, i);
      }
    }
    var r := FindMatching(hash, after, key);
    assert r.Some? ==> t[r.value] == after[r.value] && r.value != e;
  }

  ghost predicate SomeArcCrosses<K, V>(hash: K -> nat, t: seq<Bucket<K, V>>, e: nat)
    requires e < |t|
  {
    exists i :: 0 <= i < |t| && Crosses(hash, t, e, i)
  }

  lemma {:induction false} UncrossedEraseAgrees<K, V>(hash: K -> nat, t: seq<Bucket<K, V>>, e: nat, k: K)
    requires Placed(hash, t) && e < |t| && t[e].Full? && !SomeArcCrosses(hash, t, e)
    ensures Lookup(hash, t[e := Empty], k) == Get(Contents(t) - {t[e].key}, k)
  {
    LookupAfterErase(hash, t, e, k);
    ContentsHold(t);
    if k in Contents(t) && k != t[e].key {
      var i :| 0 <= i < |t| && t[i].Full? && t[i].key == k;
      assert !Crosses(hash, t, e, i);
    }
  }

  lemma {:induction false} SomeArcCrossesIs<K, V>(hash: K -> nat, t: seq<Bucket<K, V>>, e: nat)
    requires e < |t|
    ensures SomeArcCrosses(hash, t, e) <==>
            exists i :: 0 <= i < |t| && t[i].Full? && Before(hash(t[i].key) % |t|, e, i)
  {
    forall i | 0 <= i < |t| ensures Crosses(hash, t, e, i) <==> t[i].Full? && Before(hash(t[i].key) % |t|, e, i) {
      CrossesIs(hash, t, e, i);
    }
  }

  lemma {:induction false} EraseCrossed<K, V>(hash: K -> nat, t: seq<Bucket<K, V>>, key: K, e: nat) returns (k: K)
    requires Placed(hash, t) && e < |t| && t[e].Full? && t[e].key == key && SomeArcCrosses(hash, t, e)
    ensures Lookup(hash, t[e := Empty], k) != Get(Contents(t) - {key}, k)
  {
    var i :| 0 <= i < |t| && Crosses(hash, t, e, i);
    k := t[i].key;
    LookupAfterErase(hash, t, e, k);
    ContentsHold(t);
  }

  /**
    From a placed table, `erase` removes exactly its key if and only if the freed bucket is not before the
    bucket of another stored key on the way from where that key's hash value points.
   */
  lemma {:induction false} EraseExactly<K(!new), V>(hash: K -> nat, t: seq<Bucket<K, V>>, key: K)
    requires Placed(hash, t) && key in Contents(t)
    ensures FindMatching(hash, t, key).Some? && Erase(hash, t, key).1 == Ok(())
    ensures (forall k :: Lookup(hash, Erase(hash, t, key).0, k) == Get(Contents(t) - {key}, k)) <==>
            var e := FindMatching(hash, t, key).value;
            !exists i :: 0 <= i < |t| && t[i].Full? && Before(hash(t[i].key) % |t|, e, i)
  {
    LookupAgrees(hash, t, key);
    var e := FindMatching(hash, t, key).value;
    SomeArcCrossesIs(hash, t, e);
    if SomeArcCrosses(hash, t, e) {
      var k := EraseCrossed(hash, t, key, e);
    } else {
      forall k ensures Lookup(hash, Erase(hash, t, key).0, k) == Get(Contents(t) - {key}, k) {
        UncrossedEraseAgrees(hash, t, e, k);
      }
    }
  }

  /** The keys that stop being found are exactly the erased key and those on whose way its bucket was. */
  lemma {:induction false} EraseLoses<K, V>(hash: K -> nat, t: seq<Bucket<K, V>>, key: K, i: nat)
    requires Placed(hash, t) && key in Contents(t) && i < |t| && t[i].Full?
    ensures FindMatching(hash, t, key).Some?
    ensures var e := FindMatching(hash, t, key).value;
            Lookup(hash, Erase(hash, t, key).0, t[i].key) == None <==>
            i == e || Before(hash(t[i].key) % |t|, e, i)
  {
    LookupAgrees(hash, t, key);
    LookupAfterErase(hash, t, FindMatching(hash, t, key).value, t[i].key);
    CrossesIs(hash, t, FindMatching(hash, t, key).value, i);
  }

  /** A clean erase keeps the table placed and is removal on the map. */
  lemma {:induction false} EraseRefines<K, V>(hash: K -> nat, t: seq<Bucket<K, V>>, key: K)
    requires Placed(hash, t) && CleanErase(hash, t, key)
    ensures var (after, r) := Erase(hash, t, key);
            && Placed(hash, after) && |after| == |t| && Contents(after) == Contents(t) - {key}
            && r == if key in Contents(t) then Ok(()) else Err(InvalidKey)
  {
    LookupAgrees(hash, t, key);
    if key in Contents(t) {
      var e := FindMatching(hash, t, key).value;
      var after := t[e := Empty];
      forall i | 0 <= i < |after| && after[i].Full? ensures ArcFull(after, Home(hash, after[i].key, |after|), i) {
        assert ArcFull(t, Home(hash, t[i].key, |t|), i) && !Crosses(hash, t, e, i);
      }
      ContentsRemove(t, e);
    } else {
      assert Contents(t) - {key} == Contents(t);
    }
  }

  /** Erasing `key` frees no bucket that another stored key's arc crosses. */
  ghost predicate CleanErase<K, V>(hash: K -> nat, t: seq<Bucket<K, V>>, key: K) {
    var e := FindMatching(hash, t, key);
    e.Some? ==> !SomeArcCrosses(hash, t, e.value)
  }

  function Constant(key: int): nat { 0 }

  /**
    Two colliding keys: erasing the first loses the second, and `emplace` then stores the second
    again, so that one key occupies two buckets and `reserve` fails with a duplicate.
   */
  lemma EraseLosesCollidingKey()
    ensures var hash := Constant;
            var t := [Full(7, 'a'), Full(8, 'b'), Empty];
            && Placed(hash, t) && Lookup(hash, t, 8) == Some('b')
            && var erased := Erase(hash, t, 7).0;
            && Lookup(hash, erased, 8) == None
            && var (again, r) := Emplace(hash, erased, 8, 'c');
            && r == Ok(()) && again == [Full(8, 'c'), Full(8, 'b'), Empty]
            && Reserve(hash, again, 4).1 == Err(DuplicateKey)
  {
    var hash := Constant;
    var t := [Full(7, 'a'), Full(8, 'b'), Empty];
    var erased := [Empty, Full(8, 'b'), Empty];
    SearchFinds(t, 8, 0, 0, 1);
    SearchFinds(t, 7, 0, 0, 0);
    assert Erase(hash, t, 7).0 == erased;
    var again := [Full(8, 'c'), Full(8, 'b'), Empty];
    assert Emplace(hash, erased, 8, 'c').0 == again;
    var blank := Blank<int, char>(4);
    var one := blank[0 := Full(8, 'c')];
    assert Emplace(hash, blank, 8, 'c') == (one, Ok(()));
    assert Emplace(hash, one, 8, 'b') == (one, Err(DuplicateKey));
    assert again[1..][0] == Full(8, 'b');
  }

  // ---------------------------------------------------------------------------------------------
  // Histories
  // ---------------------------------------------------------------------------------------------

  datatype Op<K, V> =
    | EmplaceOp(key: K, value: V)
    | InsertOrAssignOp(key: K, value: V)
    | UpdateOp(key: K, value: V)
    | SubscriptOp(key: K, value: V)
    | EraseOp(key: K)
    | ClearOp
    | ReserveOp(capacity: nat)
    | CopyFromOp(other: seq<Bucket<K, V>>)

  function Step<K(==), V>(hash: K -> nat, t: seq<Bucket<K, V>>, op: Op<K, V>): (seq<Bucket<K, V>>, Result<(), Error>) {
    match op
    case EmplaceOp(k, v) => Emplace(hash, t, k, v)
    case InsertOrAssignOp(k, v) => InsertOrAssign(hash, t, k, v)
    case UpdateOp(k, v) => Update(hash, t, k, v)
    case SubscriptOp(k, v) => Subscript(hash, t, k, v)
    case EraseOp(k) => Erase(hash, t, k)
    case ClearOp => (Blank(|t|), Ok(()))
    case ReserveOp(c) => Reserve(hash, t, c)
    case CopyFromOp(other) => CopyFrom(hash, t, other)
  }

  /** The same operation on a plain finite map with room for `capacity` keys. */
  ghost function MapStep<K, V>(m: map<K, V>, capacity: nat, op: Op<K, V>): (map<K, V>, nat, Result<(), Error>)
    requires op.CopyFromOp? ==> Distinct(op.other)
  {
    match op
    case EmplaceOp(k, v) =>
      if k in m then (m, capacity, Err(DuplicateKey))
      else if |m| == capacity then (m, capacity, Err(ContainerFull)) else (m[k := v], capacity, Ok(()))
    case InsertOrAssignOp(k, v) =>
      if k !in m && |m| == capacity then (m, capacity, Err(ContainerFull)) else (m[k := v], capacity, Ok(()))
    case UpdateOp(k, v) =>
      if k in m then (m[k := v], capacity, Ok(())) else (m, capacity, Err(InvalidKey))
    case SubscriptOp(k, v) =>
      if k in m then (m, capacity, Ok(()))
      else if |m| == capacity then (m, capacity, Err(ContainerFull)) else (m[k := v], capacity, Ok(()))
    case EraseOp(k) =>
      (m - {k}, capacity, if k in m then Ok(()) else Err(InvalidKey))
    case ClearOp => (map[], capacity, Ok(()))
    case ReserveOp(c) => (m, if c > capacity then c else capacity, Ok(()))
    case CopyFromOp(other) =>
      if |Contents(other)| > capacity then (m, capacity, Err(ContainerFull)) else (Contents(other), capacity, Ok(()))
  }

  /** An operation that is no erase across another key's arc and copies from no corrupt table. */
  ghost predicate Clean<K, V>(hash: K -> nat, t: seq<Bucket<K, V>>, op: Op<K, V>) {
    (op.EraseOp? ==> CleanErase(hash, t, op.key)) && (op.CopyFromOp? ==> Distinct(op.other))
  }

  lemma {:induction false} StepRefines<K, V>(hash: K -> nat, t: seq<Bucket<K, V>>, op: Op<K, V>)
    requires Placed(hash, t) && Clean(hash, t, op)
    ensures var (after, r) := Step(hash, t, op);
            Placed(hash, after) && MapStep(Contents(t), |t|, op) == (Contents(after), |after|, r)
  {
    ContentsSize(t);
    match op
    case EmplaceOp(k, v) => EmplaceRefines(hash, t, k, v);
    case InsertOrAssignOp(k, v) =>
      LookupAgrees(hash, t, k);
      UpdateRefines(hash, t, k, v);
      EmplaceRefines(hash, t, k, v);
    case UpdateOp(k, v) => UpdateRefines(hash, t, k, v);
    case SubscriptOp(k, v) => SubscriptRefines(hash, t, k, v);
    case EraseOp(k) => EraseRefines(hash, t, k);
    case ClearOp => BlankIsPlaced<K, V>(hash, |t|);
    case ReserveOp(c) => ReserveRefines(hash, t, c);
    case CopyFromOp(other) => CopyFromRefines(hash, t, other);
  }

  /** The bucket array after a history of calls on an empty container. */
  function Run<K(==), V>(hash: K -> nat, ops: seq<Op<K, V>>): seq<Bucket<K, V>> {
    if ops == [] then [] else Step(hash, Run(hash, ops[..|ops| - 1]), ops[|ops| - 1]).0
  }

  ghost predicate CleanRun<K, V>(hash: K -> nat, ops: seq<Op<K, V>>) {
    ops == [] ||
    (CleanRun(hash, ops[..|ops| - 1]) && Clean(hash, Run(hash, ops[..|ops| - 1]), ops[|ops| - 1]))
  }

  /** The plain map, and the room it has, after the same history. */
  ghost function MapRun<K, V>(hash: K -> nat, ops: seq<Op<K, V>>): (map<K, V>, nat)
    requires CleanRun(hash, ops)
  {
    if ops == [] then (map[], 0)
    else
      var (m, capacity) := MapRun(hash, ops[..|ops| - 1]);
      var (m', capacity', _) := MapStep(m, capacity, ops[|ops| - 1]);
      (m', capacity')
  }

  /** After every clean history, and so after every erase-free one, each key looks up as in a plain map. */
  lemma {:induction false} HistoryRefines<K, V>(hash: K -> nat, ops: seq<Op<K, V>>, key: K)
    requires CleanRun(hash, ops)
    ensures Placed(hash, Run(hash, ops))
    ensures MapRun(hash, ops) == (Contents(Run(hash, ops)), |Run(hash, ops)|)
    ensures Lookup(hash, Run(hash, ops), key) == Get(MapRun(hash, ops).0, key)
  {
    if ops == [] {
      BlankIsPlaced<K, V>(hash, 0);
      assert Contents(Run(hash, ops)) == map[];
    } else {
      HistoryRefines(hash, ops[..|ops| - 1], key);
      StepRefines(hash, Run(hash, ops[..|ops| - 1]), ops[|ops| - 1]);
    }
    LookupAgrees(hash, Run(hash, ops), key);
  }

  /** After every clean history no stored key has a free bucket on the way from where its hash value points. */
  lemma {:induction false} StoredReachable<K, V>(hash: K -> nat, ops: seq<Op<K, V>>, i: nat, j: nat)
    requires CleanRun(hash, ops) && i < |Run(hash, ops)| && j < |Run(hash, ops)| && Run(hash, ops)[i].Full?
    requires Before(hash(Run(hash, ops)[i].key) % |Run(hash, ops)|, j, i)
    ensures Run(hash, ops)[j].Full?
  {
    HistoryRefines(hash, ops, Run(hash, ops)[i].key);
    PlacedIs(hash, Run(hash, ops));
  }

  /** An erase is clean exactly if the bucket it frees is on no other stored key's way. */
  lemma {:induction false} CleanEraseIs<K, V>(hash: K -> nat, t: seq<Bucket<K, V>>, key: K)
    ensures CleanErase(hash, t, key) <==>
            (FindMatching(hash, t, key).Some? ==>
               var e := FindMatching(hash, t, key).value;
               !exists i :: 0 <= i < |t| && t[i].Full? && Before(hash(t[i].key) % |t|, e, i))
  {
    if FindMatching(hash, t, key).Some? { SomeArcCrossesIs(hash, t, FindMatching(hash, t, key).value); }
  }

  /** The operations, one after the other, on any table, as long as none fails. */
  function StepAll<K(==), V>(hash: K -> nat, t: seq<Bucket<K, V>>, ops: seq<Op<K, V>>)
    : Result<seq<Bucket<K, V>>, Error>
    decreases |ops|
  {
    if ops == [] then Ok(t)
    else
      var (after, r) := Step(hash, t, ops[0]);
      if r.Err? then Err(r.error) else StepAll(hash, after, ops[1..])
  }

  /** Emplacing the entries of a table, in the order of its buckets. */
  function EmplaceOps<K, V>(t: seq<Bucket<K, V>>): seq<Op<K, V>> {
    if t == [] then []
    else EmplaceOps(t[..|t| - 1]) + if t[|t| - 1].Full? then [EmplaceOp(t[|t| - 1].key, t[|t| - 1].value)] else []
  }

  lemma {:induction false} EmplaceOpsFront<K, V>(t: seq<Bucket<K, V>>)
    requires t != []
    ensures EmplaceOps(t) == (if t[0].Full? then [EmplaceOp(t[0].key, t[0].value)] else []) + EmplaceOps(t[1..])
  {
    var init := t[..|t| - 1];
    if init == [] {
      assert t[1..] == [];
    } else {
      EmplaceOpsFront(init);
      assert init[1..] == t[1..][..|t[1..]| - 1];
    }
  }

  /** Rehashing puts every entry where emplacing them all, in the order of the buckets, puts it. */
  lemma {:induction false} RehashInOrder<K, V>(hash: K -> nat, src: seq<Bucket<K, V>>, dst: seq<Bucket<K, V>>)
    ensures match StepAll(hash, dst, EmplaceOps(src))
            case Ok(after) => Rehash(hash, src, dst) == (after, Ok(()))
            case Err(e) => Rehash(hash, src, dst).1 == Err(e)
    decreases |src|
  {
    if src != [] {
      EmplaceOpsFront(src);
      if src[0].Empty? {
        assert EmplaceOps(src) == EmplaceOps(src[1..]);
        RehashInOrder(hash, src[1..], dst);
      } else {
        var ops := EmplaceOps(src);
        assert ops[0] == EmplaceOp(src[0].key, src[0].value) && ops[1..] == EmplaceOps(src[1..]);
        RehashInOrder(hash, src[1..], Emplace(hash, dst, src[0].key, src[0].value).0);
      }
    }
  }

  /** And so do growing a table and copying one, into a table without entries. */
  lemma ReserveAndCopyInOrder<K, V>(hash: K -> nat, t: seq<Bucket<K, V>>, capacity: nat, other: seq<Bucket<K, V>>)
    ensures capacity > |t| && StepAll(hash, seq(capacity, _ => Empty), EmplaceOps(t)).Ok? ==>
              Reserve(hash, t, capacity)
              == (StepAll(hash, seq(capacity, _ => Empty), EmplaceOps(t)).value, Ok(()))
    ensures Size(other) <= |t| && StepAll(hash, seq(|t|, _ => Empty), EmplaceOps(other)).Ok? ==>
              CopyFrom(hash, t, other)
              == (StepAll(hash, seq(|t|, _ => Empty), EmplaceOps(other)).value, Ok(()))
  {
    RehashInOrder(hash, t, Blank(capacity));
    RehashInOrder(hash, other, Blank(|t|));
    assert Blank<K, V>(capacity) == seq(capacity, _ => Empty) && Blank<K, V>(|t|) == seq(|t|, _ => Empty);
  }

  lemma {:induction false} EraseFreeIsClean<K, V>(hash: K -> nat, ops: seq<Op<K, V>>)
    requires forall op :: op in ops ==> !op.EraseOp? && (op.CopyFromOp? ==> Distinct(op.other))
    ensures CleanRun(hash, ops)
  {
    if ops != [] {
      EraseFreeIsClean(hash, ops[..|ops| - 1]);
      assert ops[|ops| - 1] in ops;
    }
  }
}
