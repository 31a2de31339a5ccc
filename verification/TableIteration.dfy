/**
  Forward iteration over a `FixedMap`: which bucket an iterator stands on, and that repeated `++`
  from `begin()` meets every stored entry once.
 */
module TableIteration {
  import opened Wrappers
  import opened ProbeTables

  /** The k-th occupied bucket from index `from` on, or the end of the table. */
  function Nth<K, V>(t: seq<Bucket<K, V>>, from: nat, k: nat): (i: nat)
    requires from <= |t|
    ensures from <= i <= |t|
    ensures i < |t| ==> t[i].Full?
    decreases |t| - from
  {
    if from == |t| then from
    else if t[from].Empty? then Nth(t, from + 1, k)
    else if k == 0 then from else Nth(t, from + 1, k - 1)
  }

  /** The number of occupied buckets before index `i`. */
  function Rank<K, V>(t: seq<Bucket<K, V>>, i: nat): nat
    requires i <= |t|
  {
    Size(t[..i])
  }

  lemma RankNext<K, V>(t: seq<Bucket<K, V>>, i: nat)
    requires i < |t|
    ensures Rank(t, i + 1) == Rank(t, i) + if t[i].Full? then 1 else 0
    ensures Rank(t, |t|) == Size(t)
  {
    assert t[..i + 1][..i] == t[..i];
    assert t[..|t|] == t;
  }

  /** Ranks and positions are inverse: `begin() + k` stands on the bucket of rank k, or at the end from `size` on. */
  lemma {:induction false} NthRank<K, V>(t: seq<Bucket<K, V>>, from: nat, k: nat)
    requires from <= |t|
    ensures var i := Nth(t, from, k);
            && (i < |t| <==> k < Size(t) - Rank(t, from))
            && (i < |t| ==> t[i].Full? && Rank(t, i) == Rank(t, from) + k)
    decreases |t| - from
  {
    if from == |t| {
      assert t[..|t|] == t;
    } else {
      RankNext(t, from);
      if t[from].Empty? {
        NthRank(t, from + 1, k);
      } else if k > 0 {
        NthRank(t, from + 1, k - 1);
      } else {
        RankBound(t, from + 1);
      }
    }
  }

  lemma {:induction false} RankBound<K, V>(t: seq<Bucket<K, V>>, i: nat)
    requires i <= |t|
    ensures Rank(t, i) <= Size(t)
    decreases |t| - i
  {
    if i == |t| {
      assert t[..|t|] == t;
    } else {
      RankNext(t, i);
      RankBound(t, i + 1);
    }
  }

  /** Every occupied bucket is the one `begin()` reaches in as many steps as its rank. */
  lemma {:induction false} NthOfRank<K, V>(t: seq<Bucket<K, V>>, from: nat, i: nat)
    requires from <= i < |t| && t[i].Full?
    ensures Rank(t, i) >= Rank(t, from) && Nth(t, from, Rank(t, i) - Rank(t, from)) == i
    decreases i - from
  {
    if from < i {
      RankNext(t, from);
      NthOfRank(t, from + 1, i);
    }
  }

  /** Advancing by k and then by one more is advancing by k + 1. */
  lemma {:induction false} NthStep<K, V>(t: seq<Bucket<K, V>>, from: nat, k: nat)
    requires from <= |t| && Nth(t, from, k) < |t|
    ensures Nth(t, Nth(t, from, k), 1) == Nth(t, from, k + 1) > Nth(t, from, k)
    decreases |t| - from
  {
    if t[from].Empty? {
      NthStep(t, from + 1, k);
    } else if k > 0 {
      NthStep(t, from + 1, k - 1);
    }
  }

  /** Going back from index `i` over `k` occupied buckets, as far as there are any. */
  function Back<K, V>(t: seq<Bucket<K, V>>, i: nat, k: nat): (j: nat)
    requires i <= |t|
    ensures j <= i
  {
    if k == 0 || i <= 1 then if k == 0 then i else 0
    else Back(t, i - 1, if t[i - 1].Full? then k - 1 else k)
  }

  /** Where an iterator arrives: it first settles on an occupied bucket, then moves either way. */
  function Shift<K, V>(t: seq<Bucket<K, V>>, from: nat, offset: int): (i: nat)
    requires from <= |t|
    ensures i <= |t|
  {
    if offset >= 0 then Nth(t, from, offset) else Back(t, Nth(t, from, 0), -offset)
  }

  /** Going back arrives at the bucket whose rank is that much lower, or at index 0 if there is none. */
  lemma {:induction false} BackRank<K, V>(t: seq<Bucket<K, V>>, i: nat, k: nat)
    requires i <= |t| && k > 0
    ensures Back(t, i, k) == if k <= Rank(t, i) then Nth(t, 0, Rank(t, i) - k) else 0
  {
    if i > 0 {
      RankNext(t, i - 1);
      if i > 1 {
        if t[i - 1].Full? && k == 1 {
          NthOfRank(t, 0, i - 1);
        } else {
          BackRank(t, i - 1, if t[i - 1].Full? then k - 1 else k);
        }
      }
    }
  }

  /** Going back undoes going forward, unless that went past the last entry. */
  lemma BackUndoesForward<K, V>(t: seq<Bucket<K, V>>, i: nat, k: int)
    requires i < |t| && t[i].Full? && k >= 0 && Size(t[..i]) + k < Size(t)
    ensures Shift(t, i, k) < |t| && Shift(t, Shift(t, i, k), -k) == i
  {
    var j := Nth(t, i, k);
    NthRank(t, i, k);
    SettledNth(t, j);
    if k > 0 { BackFrom(t, i, j, k); }
  }

  lemma BackFrom<K, V>(t: seq<Bucket<K, V>>, i: nat, j: nat, k: nat)
    requires i < |t| && j < |t| && t[i].Full? && k > 0 && Rank(t, j) == Rank(t, i) + k
    ensures Back(t, j, k) == i
  {
    BackRank(t, j, k);
    NthOfRank(t, 0, i);
  }

  /** An occupied bucket is where an iterator on it settles. */
  lemma SettledNth<K, V>(t: seq<Bucket<K, V>>, j: nat)
    requires j < |t| && t[j].Full?
    ensures Nth(t, j, 0) == j
  {
  }

  /** Where an iterator arrives, told by how many occupied buckets are before it. */
  lemma ShiftRank<K, V>(t: seq<Bucket<K, V>>, from: nat, offset: int)
    requires from < |t|
    ensures var i, before := Shift(t, from, offset), Size(t[..from]);
            if offset >= 0 then
              && (i < |t| <==> before + offset < Size(t))
              && (i < |t| ==> t[i].Full? && Size(t[..i]) == before + offset)
            else if before + offset >= 0 then i < |t| && t[i].Full? && Size(t[..i]) == before + offset
            else i == 0
  {
    if offset >= 0 {
      NthRank(t, from, offset);
    } else {
      var j := Nth(t, from, 0);
      SkippedRank(t, from);
      BackRank(t, j, -offset);
      RankBound(t, from);
      if Rank(t, j) + offset >= 0 { NthRank(t, 0, Rank(t, j) + offset); }
    }
  }

  lemma {:induction false} SkippedRank<K, V>(t: seq<Bucket<K, V>>, from: nat)
    requires from <= |t|
    ensures Rank(t, Nth(t, from, 0)) == Rank(t, from)
    decreases |t| - from
  {
    if from < |t| && t[from].Empty? {
      RankNext(t, from);
      SkippedRank(t, from + 1);
    }
  }

  lemma {:induction false} NthSkips<K, V>(t: seq<Bucket<K, V>>, from: nat)
    requires from <= |t|
    ensures forall k :: from <= k < Nth(t, from, 0) ==> t[k].Empty?
    decreases |t| - from
  {
    if from < |t| && t[from].Empty? { NthSkips(t, from + 1); }
  }

  /** Nothing is between an occupied bucket and the one before which there is just one occupied bucket more. */
  lemma NextOccupied<K, V>(t: seq<Bucket<K, V>>, i: nat, next: nat)
    requires i < |t| && t[i].Full? && next <= |t|
    requires next < |t| <==> Size(t[..i]) + 1 < Size(t)
    requires next < |t| ==> t[next].Full? && Size(t[..next]) == Size(t[..i]) + 1
    ensures i < next && forall k :: i < k < next ==> t[k].Empty?
  {
    RankNext(t, i);
    assert t[..|t|] == t;
    if next <= i { RankMonotone(t, next, i); }
    forall k | i < k < next && t[k].Full? ensures false {
      RankNext(t, k);
      RankMonotone(t, i + 1, k);
      RankMonotone(t, k + 1, next);
    }
  }

  /** The positions met by `k` increments starting from position `i`. */
  function Traverse<K, V>(t: seq<Bucket<K, V>>, i: nat, k: nat): (visited: seq<nat>)
    requires i <= |t|
    ensures |visited| == k
    decreases k
  {
    if k == 0 then [] else [i] + Traverse(t, Nth(t, i, 1), k - 1)
  }

  lemma {:induction false} TraverseAt<K, V>(t: seq<Bucket<K, V>>, k: nat, n: nat, j: nat)
    requires k + n <= Size(t) && j < n
    ensures Traverse(t, Nth(t, 0, k), n)[j] == Nth(t, 0, k + j)
    decreases n
  {
    NthRank(t, 0, k);
    NthStep(t, 0, k);
    if j > 0 { TraverseAt(t, k + 1, n - 1, j - 1); }
  }

  /** `size` increments from `begin()` visit exactly the occupied buckets, in order, and arrive at `end()`. */
  lemma TraversalVisitsAll<K, V>(t: seq<Bucket<K, V>>)
    ensures var visited := Traverse(t, Nth(t, 0, 0), Size(t));
            && (forall i :: 0 <= i < |t| ==> (t[i].Full? <==> i in visited))
            && (forall i :: i in visited ==> i < |t|)
            && (forall j, k :: 0 <= j < k < |visited| ==> visited[j] < visited[k])
    ensures Nth(t, 0, Size(t)) == |t|
  {
    var visited := Traverse(t, Nth(t, 0, 0), Size(t));
    NthRank(t, 0, Size(t));
    forall j | 0 <= j < |visited| ensures visited[j] < |t| && t[visited[j]].Full? {
      VisitedRank(t, j);
    }
    forall i | 0 <= i < |t| && t[i].Full? ensures i in visited {
      NthOfRank(t, 0, i);
      NthRank(t, 0, Rank(t, i));
      VisitedRank(t, Rank(t, i));
    }
    forall j, k | 0 <= j < k < |visited| ensures visited[j] < visited[k] {
      VisitedRank(t, j);
      VisitedRank(t, k);
      if visited[k] <= visited[j] { RankMonotone(t, visited[k], visited[j]); }
    }
  }

  lemma VisitedRank<K, V>(t: seq<Bucket<K, V>>, j: nat)
    requires j < Size(t)
    ensures var i := Traverse(t, Nth(t, 0, 0), Size(t))[j];
            i == Nth(t, 0, j) && i < |t| && t[i].Full? && Rank(t, i) == j
  {
    TraverseAt(t, 0, Size(t), j);
    NthRank(t, 0, j);
  }

  lemma {:induction false} RankMonotone<K, V>(t: seq<Bucket<K, V>>, i: nat, j: nat)
    requires i <= j <= |t|
    ensures Rank(t, i) <= Rank(t, j)
    decreases j - i
  {
    if i < j {
      RankNext(t, i);
      RankMonotone(t, i + 1, j);
    }
  }

  /** With equal sizes, agreement on the occupied buckets of one table is equality of the tables. */
  lemma {:induction false} SameOccupied<K, V>(s: seq<Bucket<K, V>>, t: seq<Bucket<K, V>>)
    requires |s| == |t| && forall i :: 0 <= i < |s| && s[i].Full? ==> t[i] == s[i]
    ensures Size(s) <= Size(t) && (Size(s) == Size(t) ==> s == t)
  {
    if s != [] {
      SameOccupied(s[..|s| - 1], t[..|t| - 1]);
      assert s == s[..|s| - 1] + [s[|s| - 1]] && t == t[..|t| - 1] + [t[|t| - 1]];
    }
  }
}
