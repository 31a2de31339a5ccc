/**
  Exactly which thresholds keep a parallel's promises. For every pair of thresholds and every number of
  children: all interleavings agree on the outcome if and only if the outcome is fixed, and every run can
  finish if and only if the thresholds are decisive. The failing halves are runs of a parallel over constants.
 */
module BehaviorTreeThresholds {
  import opened BehaviorTrees
  import opened BehaviorTreeSafety
  import opened BehaviorTreeProgress

  // ---------------------------------------------------------------------------------------------
  // A parallel over constants
  // ---------------------------------------------------------------------------------------------

  /** The entities 1 to `n`. */
  function Ids(n: nat): (ids: seq<nat>)
    ensures |ids| == n && Below(ids, n + 1)
  {
    seq(n, k requires 0 <= k < n => k + 1)
  }

  /** Child `k` succeeds if `bs[k]` and fails otherwise. */
  function Fan(s: int, f: int, bs: seq<bool>): (tree: Tree)
    ensures |tree| == |bs| + 1
  {
    [Entity(Parallel(s, f), Ids(|bs|), 0, false, 0, 0)]
    + seq(|bs|, k requires 0 <= k < |bs| => Entity(Constant(if bs[k] then 0 else 1), [], 0, false, 0, k))
  }

  lemma FanWellFormed(s: int, f: int, bs: seq<bool>)
    ensures WellFormed(Fan(s, f, bs)) && Frank(Fan(s, f, bs))
    ensures FixedOutcome(s, f, |bs|) ==> Deterministic(Fan(s, f, bs))
    ensures DecisiveThresholds(s, f, |bs|) ==> Decisive(Fan(s, f, bs))
  {
    var tree := Fan(s, f, bs);
    assert tree[0] == Entity(Parallel(s, f), Ids(|bs|), 0, false, 0, 0);
    assert forall i :: 0 < i < |tree| ==>
             tree[i] == Entity(Constant(if bs[i - 1] then 0 else 1), [], 0, false, 0, i - 1);
  }

  function ConstantNode(b: bool, done: bool): Node {
    if !done then Node(Ready, Init, false, 0, 0, true)
    else if b then Node(Never, Success, true, 0, 0, true)
    else Node(Ready, Failure, true, 0, 1, false)
  }

  /** The root has started its children, and of those just the ones from `lo` up to `hi` have been ticked. */
  function FanState(bs: seq<bool>, lo: nat, hi: nat): (st: seq<Node>)
    ensures |st| == |bs| + 1
  {
    [Node(Ready, Running, true, 0, 0, true)]
    + seq(|bs|, k requires 0 <= k < |bs| => ConstantNode(bs[k], lo <= k < hi))
  }

  lemma FanStarts(s: int, f: int, bs: seq<bool>, lo: nat)
    requires bs != []
    ensures WellFormed(Fan(s, f, bs)) && Run(Fan(s, f, bs), [0]) == FanState(bs, lo, lo)
  {
    FanWellFormed(s, f, bs);
    var tree := Fan(s, f, bs);
    var begun := InitialState(tree)[0 := InitialState(tree)[0].(ticked := true)];
    forall j: nat | j < |tree|
      ensures SetConditions(begun, Ids(|bs|), Ready)[j] == if j > 0 then begun[j].(condition := Ready) else begun[j]
    {
      SetConditionsAt(begun, Ids(|bs|), Ready, j);
      assert j > 0 ==> Ids(|bs|)[j - 1] == j;
    }
    RunThenTick(tree, [], 0);
    assert [] + [0] == [0];
    assert Run(tree, [0]) == FanState(bs, lo, lo);
  }

  lemma FanTicksChild(s: int, f: int, bs: seq<bool>, lo: nat, hi: nat)
    requires lo <= hi < |bs|
    ensures WellFormed(Fan(s, f, bs)) && Tick(Fan(s, f, bs), FanState(bs, lo, hi), hi + 1) == FanState(bs, lo, hi + 1)
  {
    FanWellFormed(s, f, bs);
    var tree, st := Fan(s, f, bs), FanState(bs, lo, hi);
    assert tree[hi + 1].kind == Constant(if bs[hi] then 0 else 1);
    assert st[hi + 1] == ConstantNode(bs[hi], false);
    assert Tick(tree, st, hi + 1)[hi + 1] == ConstantNode(bs[hi], true);
    assert Tick(tree, st, hi + 1) == st[hi + 1 := ConstantNode(bs[hi], true)];
  }

  /** The root's first tick, then one tick for each child from `lo` up to `hi`. */
  function Ticks(lo: nat, hi: nat): (ticks: seq<nat>)
    requires lo <= hi
  {
    if lo == hi then [0] else Ticks(lo, hi - 1) + [hi]
  }

  lemma {:induction false} FanRuns(s: int, f: int, bs: seq<bool>, lo: nat, hi: nat)
    requires lo <= hi <= |bs| && bs != []
    ensures WellFormed(Fan(s, f, bs)) && Run(Fan(s, f, bs), Ticks(lo, hi)) == FanState(bs, lo, hi)
    decreases hi
  {
    if lo == hi {
      FanStarts(s, f, bs, lo);
    } else {
      var tree, before := Fan(s, f, bs), Ticks(lo, hi - 1);
      FanRuns(s, f, bs, lo, hi - 1);
      FanTicksChild(s, f, bs, lo, hi - 1);
      assert Ticks(lo, hi) == before + [hi];
      RunThenTick(tree, before, hi);
    }
  }

  // ---------------------------------------------------------------------------------------------
  // What the root then finds
  // ---------------------------------------------------------------------------------------------

  lemma {:induction false} CountRange(st: seq<Node>, m: nat, lo: nat, hi: nat, x: Status)
    requires m < |st| && lo <= hi
    requires forall k :: 0 < k <= m ==> (st[k].status == x <==> lo < k <= hi)
    ensures CountStatus(st, Ids(m), x) == if m <= lo then 0 else if m <= hi then m - lo else hi - lo
  {
    if m > 0 {
      CountRange(st, m - 1, lo, hi, x);
      assert Ids(m)[..m - 1] == Ids(m - 1);
      assert Ids(m)[m - 1] == m;
    }
  }

  /** The first `a` children of the fan succeed and all others fail. */
  function Outcome(a: nat, n: nat): (bs: seq<bool>)
    ensures |bs| == n
  {
    seq(n, k => k < a)
  }

  /** The counts a poll makes when the ticked children are all among those that succeed, or cover the others. */
  lemma FanCounts(a: nat, n: nat, lo: nat, hi: nat)
    requires a <= n && lo <= hi <= n && (lo == 0 || lo == a) && (hi == a || hi == n)
    ensures var st := FanState(Outcome(a, n), lo, hi);
            && CountStatus(st, Ids(n), Success) == (if lo == 0 then a else 0)
            && CountStatus(st, Ids(n), Failure) == (if hi == n then n - a else 0)
            && CountStatus(st, Ids(n), Unknown) == 0
  {
    var st := FanState(Outcome(a, n), lo, hi);
    forall k | 0 < k <= n ensures st[k] == ConstantNode(k <= a, lo < k <= hi) {
      assert st[k] == ConstantNode(Outcome(a, n)[k - 1], lo <= k - 1 < hi);
    }
    CountRange(st, n, lo, a, Success);
    CountRange(st, n, a, hi, Failure);
    CountRange(st, n, n, n, Unknown);
  }

  /** A poll gives the root the status that the counts call for. */
  lemma FanPoll(s: int, f: int, bs: seq<bool>, lo: nat, hi: nat)
    requires bs != [] && CountStatus(FanState(bs, lo, hi), Ids(|bs|), Unknown) == 0
    ensures WellFormed(Fan(s, f, bs))
    ensures var st := FanState(bs, lo, hi);
            var a, b := CountStatus(st, Ids(|bs|), Success), CountStatus(st, Ids(|bs|), Failure);
            Tick(Fan(s, f, bs), st, 0)[0].status == BehaviorStatus(Verdict(a, b, s, f, |bs|))
  {
    FanWellFormed(s, f, bs);
    var tree, st := Fan(s, f, bs), FanState(bs, lo, hi);
    assert st[0 := st[0].(ticked := true)] == st;
    ParallelStops(st, 0, tree[0]);
  }

  lemma FanPolls(s: int, f: int, bs: seq<bool>, lo: nat, hi: nat)
    requires bs != [] && lo <= hi <= |bs| && CountStatus(FanState(bs, lo, hi), Ids(|bs|), Unknown) == 0
    ensures WellFormed(Fan(s, f, bs))
    ensures var st := FanState(bs, lo, hi);
            var a, b := CountStatus(st, Ids(|bs|), Success), CountStatus(st, Ids(|bs|), Failure);
            Run(Fan(s, f, bs), Ticks(lo, hi) + [0])[0].status == BehaviorStatus(Verdict(a, b, s, f, |bs|))
  {
    FanRuns(s, f, bs, lo, hi);
    FanPoll(s, f, bs, lo, hi);
    RunThenTick(Fan(s, f, bs), Ticks(lo, hi), 0);
  }

  // ---------------------------------------------------------------------------------------------
  // Agreement
  // ---------------------------------------------------------------------------------------------

  /** No two interleavings settle the root differently. */
  ghost predicate RootAgrees(tree: Tree)
    requires WellFormed(tree)
  {
    forall ticks, others :: Settled(Run(tree, ticks)[0]) && Settled(Run(tree, others)[0]) ==>
                              Run(tree, ticks)[0].status == Run(tree, others)[0].status
  }

  /**
    If the outcome is not fixed, it is a race: with just enough children that succeed, the root settles one
    way when these are ticked first and the other way when the failing ones are.
   */
  lemma RaceDependsOnInterleaving(s: int, f: int, n: nat) returns (bs: seq<bool>, ticks: seq<nat>, others: seq<nat>)
    requires n > 0 && !FixedOutcome(s, f, n)
    ensures |bs| == n && WellFormed(Fan(s, f, bs))
    ensures Run(Fan(s, f, bs), ticks)[0].status == Success
    ensures Run(Fan(s, f, bs), others)[0].status == Failure
  {
    var a: nat := Threshold(s, n);
    bs := Outcome(a, n);
    ticks, others := Ticks(0, a) + [0], Ticks(a, n) + [0];
    FanCounts(a, n, 0, a);
    FanCounts(a, n, a, n);
    FanPolls(s, f, bs, 0, a);
    FanPolls(s, f, bs, a, n);
  }

  /** The children of a parallel can race for its outcome exactly if the thresholds leave it open. */
  lemma FixedExactly(s: int, f: int, n: nat)
    requires n > 0
    ensures FixedOutcome(s, f, n) <==>
            forall bs: seq<bool> :: |bs| == n ==> WellFormed(Fan(s, f, bs)) && RootAgrees(Fan(s, f, bs))
  {
    if FixedOutcome(s, f, n) {
      forall bs: seq<bool> | |bs| == n ensures WellFormed(Fan(s, f, bs)) && RootAgrees(Fan(s, f, bs)) {
        FanWellFormed(s, f, bs);
        forall ticks, others | Settled(Run(Fan(s, f, bs), ticks)[0]) && Settled(Run(Fan(s, f, bs), others)[0])
          ensures Run(Fan(s, f, bs), ticks)[0].status == Run(Fan(s, f, bs), others)[0].status
        {
          InterleavingsAgree(Fan(s, f, bs), ticks, others, 0);
        }
      }
    } else {
      var bs, ticks, others := RaceDependsOnInterleaving(s, f, n);
      assert !RootAgrees(Fan(s, f, bs));
    }
  }

  // ---------------------------------------------------------------------------------------------
  // Getting done
  // ---------------------------------------------------------------------------------------------

  ghost predicate Completable(tree: Tree, ticks: seq<nat>)
    requires WellFormed(tree)
  {
    exists more :: Settled(Run(tree, ticks + more)[0])
  }

  /** Every run can be completed. */
  ghost predicate CanFinish(tree: Tree)
    requires WellFormed(tree)
  {
    forall ticks :: Completable(tree, ticks)
  }

  lemma FanSettled(s: int, f: int, bs: seq<bool>)
    ensures forall k :: 0 <= k < |bs| ==> Settled(FanState(bs, 0, |bs|)[Fan(s, f, bs)[0].children[k]])
  {
    forall k | 0 <= k < |bs| ensures Settled(FanState(bs, 0, |bs|)[Fan(s, f, bs)[0].children[k]]) {
      assert FanState(bs, 0, |bs|)[k + 1] == ConstantNode(bs[k], true);
    }
  }

  /** All children of the fan have been ticked, and what they show meets neither threshold. */
  lemma FanUndecided(s: int, f: int, n: nat, a: nat)
    requires n > 0 && a <= n && Verdict(a, n - a, s, f, n) == NotFinished
    ensures WellFormed(Fan(s, f, Outcome(a, n)))
    ensures Undecided(Fan(s, f, Outcome(a, n)), Run(Fan(s, f, Outcome(a, n)), Ticks(0, n)), 0)
  {
    var bs := Outcome(a, n);
    FanRuns(s, f, bs, 0, n);
    assert Inv(Fan(s, f, bs), FanState(bs, 0, n)) by { RunInv(Fan(s, f, bs), Ticks(0, n)); }
    FanCounts(a, n, 0, n);
    FanSettled(s, f, bs);
  }

  /** Without a verdict on some outcome, a run of that outcome gets every child done and the root never. */
  lemma IndecisionHangs(s: int, f: int, n: nat) returns (bs: seq<bool>, ticks: seq<nat>)
    requires n > 0 && !DecisiveThresholds(s, f, n)
    ensures |bs| == n && WellFormed(Fan(s, f, bs))
    ensures forall more :: !Settled(Run(Fan(s, f, bs), ticks + more)[0])
  {
    var a := UndecidedSuccesses(s, n);
    bs, ticks := Outcome(a, n), Ticks(0, n);
    FanUndecided(s, f, n, a);
    forall more ensures !Settled(Run(Fan(s, f, bs), ticks + more)[0]) {
      UndecidedForever(Fan(s, f, bs), ticks, more, 0);
    }
  }

  lemma DecisiveExactly(s: int, f: int, n: nat)
    requires n > 0
    ensures DecisiveThresholds(s, f, n) <==>
            forall bs: seq<bool> :: |bs| == n ==> WellFormed(Fan(s, f, bs)) && CanFinish(Fan(s, f, bs))
  {
    if DecisiveThresholds(s, f, n) {
      forall bs: seq<bool> | |bs| == n ensures WellFormed(Fan(s, f, bs)) && CanFinish(Fan(s, f, bs)) {
        FanWellFormed(s, f, bs);
        forall ticks ensures Completable(Fan(s, f, bs), ticks) {
          var more := EveryRunCanFinish(Fan(s, f, bs), ticks);
        }
      }
    } else {
      var bs, ticks := IndecisionHangs(s, f, n);
      assert !Completable(Fan(s, f, bs), ticks);
    }
  }
}
