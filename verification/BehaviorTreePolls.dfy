/**
  What single ticks come to, told in the configured numbers and the entities' fields alone: the outcome of
  a poll of a parallel for every pair of thresholds, of a poll of an unknown child, and what a controller
  shows of repeated failures.
 */
module BehaviorTreePolls {
  import opened BehaviorTrees
  import opened BehaviorTreeSafety

  /** The children that show the status, by their places. */
  ghost function Showing(st: seq<Node>, cs: seq<nat>, x: Status): set<nat>
    requires Below(cs, |st|)
  {
    set k: nat | k < |cs| && st[cs[k]].status == x
  }

  lemma ShowingLast(st: seq<Node>, cs: seq<nat>, x: Status)
    requires Below(cs, |st|) && cs != []
    ensures var last := |cs| - 1;
            && Below(cs[..last], |st|) && last !in Showing(st, cs[..last], x)
            && Showing(st, cs, x) == Showing(st, cs[..last], x) + if st[cs[last]].status == x then {last} else {}
  {
    var before := cs[..|cs| - 1];
    assert forall k :: 0 <= k < |before| ==> before[k] == cs[k];
  }

  lemma {:induction false} CountIsSize(st: seq<Node>, cs: seq<nat>, x: Status)
    requires Below(cs, |st|)
    ensures CountStatus(st, cs, x) == |Showing(st, cs, x)|
  {
    if cs == [] {
      assert Showing(st, cs, x) == {};
    } else {
      ShowingLast(st, cs, x);
      CountIsSize(st, cs[..|cs| - 1], x);
    }
  }

  /** A 64-bit parameter is read as the 32-bit number that agrees with it in the low 32 bits. */
  lemma ReadsLow32(x: int, low: int)
    requires -0x8000_0000 <= low < 0x8000_0000 && (x - low) % 0x1_0000_0000 == 0
    ensures ToInt32(x) == low
  {
  }

  lemma VerdictIs(a: nat, b: nat, st: int, ft: int, n: nat, s: int, f: int)
    requires a <= n && b <= n
    requires -0x8000_0000 <= s < 0x8000_0000 && (st - s) % 0x1_0000_0000 == 0
    requires -0x8000_0000 <= f < 0x8000_0000 && (ft - f) % 0x1_0000_0000 == 0
    ensures var succeeds := s >= -1 && a >= (if s == -1 then n else s);
            var fails := !succeeds && (s < -1 || f < -1 || b >= (if f == -1 then n else f));
            && (Verdict(a, b, st, ft, n) == Succeeded <==> succeeds)
            && (Verdict(a, b, st, ft, n) == NotFinished <==> !succeeds && !fails)
  {
    ReadsLow32(st, s);
    ReadsLow32(ft, f);
  }

  /** The entity has failed once more, and is stopped for good unless its controller repeats it. */
  predicate FailsNow(e: Entity, n: Node, after: Node) {
    && after.failures == n.failures + 1
    && after.active == (n.failures + 1 <= e.maxRepeat)
    && after.status == (if e.runningIfRepeat && n.failures + 1 <= e.maxRepeat then Running else Failure)
    && after.condition == Never
  }

  /** What a poll makes of the tick result. */
  lemma PollOutcome(tree: Tree, st: seq<Node>, i: nat)
    requires WellFormed(tree) && |st| == |tree| && i < |tree| && tree[i].kind.Parallel?
    requires Enabled(st[i]) && st[i].ticked && st[i].status == Running
    ensures Below(tree[i].children, |tree|)
    ensures var r, cs, after := TickKind(st, i, tree[i], false).1, tree[i].children, Tick(tree, st, i);
            && (r == Succeeded ==> after[i] == st[i].(status := Success, condition := Never))
            && (r == NotFinished ==> after == st)
            && (r != Succeeded && r != NotFinished ==> FailsNow(tree[i], st[i], after[i]))
            && (r != NotFinished ==>
                  forall k :: 0 <= k < |cs| ==> after[cs[k]] == st[cs[k]].(condition := Never))
  {
    assert st[i := st[i].(ticked := true)] == st;
    ParallelStops(st, i, tree[i]);
    TickKeepsOthers(tree, st, i);
  }

  /**
    A poll of a parallel, with its thresholds read as 32-bit numbers `s` and `f` (which is what they are if they
    are in range): it fails if a child's status is unknown or a threshold it needs is below -1, succeeds if
    enough children have, then fails if enough children have, where -1 asks for all of them, and otherwise
    changes nothing. Success is looked at first.
   */
  lemma ParallelPoll(tree: Tree, st: seq<Node>, i: nat, s: int, f: int)
    requires WellFormed(tree) && |st| == |tree| && i < |tree| && tree[i].kind.Parallel?
    requires st[i].condition == Ready && st[i].active && st[i].ticked && st[i].status == Running
    requires -0x8000_0000 <= s < 0x8000_0000 && (tree[i].kind.successThreshold - s) % 0x1_0000_0000 == 0
    requires -0x8000_0000 <= f < 0x8000_0000 && (tree[i].kind.failureThreshold - f) % 0x1_0000_0000 == 0
    ensures Below(tree[i].children, |tree|)
    ensures var cs, n, after := tree[i].children, |tree[i].children|, Tick(tree, st, i);
            var unknown := exists k :: 0 <= k < n && st[cs[k]].status == Unknown;
            var successes := |set k: nat | k < n && st[cs[k]].status == Success|;
            var failures := |set k: nat | k < n && st[cs[k]].status == Failure|;
            var succeeds := !unknown && s >= -1 && successes >= (if s == -1 then n else s);
            var fails := !succeeds && (unknown || s < -1 || f < -1 || failures >= (if f == -1 then n else f));
            && (succeeds ==> after[i] == st[i].(status := Success, condition := Never))
            && (fails ==> FailsNow(tree[i], st[i], after[i]))
            && (succeeds || fails ==> forall k :: 0 <= k < n ==> after[cs[k]] == st[cs[k]].(condition := Never))
            && (!succeeds && !fails ==> after == st)
  {
    var cs := tree[i].children;
    PollOutcome(tree, st, i);
    CountIsSize(st, cs, Unknown);
    CountIsSize(st, cs, Success);
    CountIsSize(st, cs, Failure);
    SomeShows(st, cs, Unknown);
    VerdictIs(CountStatus(st, cs, Success), CountStatus(st, cs, Failure),
              tree[i].kind.successThreshold, tree[i].kind.failureThreshold, |cs|, s, f);
  }

  lemma SomeShows(st: seq<Node>, cs: seq<nat>, x: Status)
    requires Below(cs, |st|)
    ensures |Showing(st, cs, x)| > 0 <==> exists k :: 0 <= k < |cs| && st[cs[k]].status == x
  {
    if k :| 0 <= k < |cs| && st[cs[k]].status == x {
      assert k in Showing(st, cs, x);
    } else {
      assert Showing(st, cs, x) == {};
    }
  }

  /** A sequence, selector or switch that polls a child of unknown status, or one past the last, fails and is done. */
  lemma UnknownChildFails(tree: Tree, st: seq<Node>, i: nat)
    requires WellFormed(tree) && |st| == |tree| && i < |tree|
    requires tree[i].kind.Sequence? || tree[i].kind.Selector? || tree[i].kind.Switch?
    requires st[i].condition == Ready && st[i].active && st[i].ticked
    requires st[i].current < |tree[i].children| ==>
               tree[i].children[st[i].current] < |tree| && st[tree[i].children[st[i].current]].status == Unknown
    ensures FailsNow(tree[i], st[i], Tick(tree, st, i)[i])
    ensures forall j :: 0 <= j < |tree| && j != i ==> Tick(tree, st, i)[j] == st[j]
  {
  }

  /** In every state of every run: what a controller shows of an entity that has failed, and whether it ticks again. */
  lemma {:induction false} FailuresShown(tree: Tree, ticks: seq<nat>, i: nat)
    requires WellFormed(tree) && i < |tree|
    ensures var n := Run(tree, ticks)[i];
            && n.active == (n.failures <= tree[i].maxRepeat) && n.failures <= tree[i].maxRepeat + 1
            && (n.failures > 0 ==> n.status == if tree[i].runningIfRepeat && n.failures <= tree[i].maxRepeat
                                               then Running else Failure)
            && (n.failures == 0 ==> n.status != Failure)
  {
    RunInv(tree, ticks);
    assert NodeOk(tree[i], Run(tree, ticks)[i]);
  }

  /** Every tick of a constant that fails is one more failure, and it stays READY for the next. */
  lemma ConstantRepeats(tree: Tree, st: seq<Node>, i: nat)
    requires WellFormed(tree) && |st| == |tree| && i < |tree| && tree[i].kind.Constant?
    requires st[i].condition == Ready && st[i].active
    ensures var n, after := st[i], Tick(tree, st, i)[i];
            if tree[i].kind.constantStatus == 0 then
              after == n.(ticked := true, status := Success, condition := Never)
            else
              && after.condition == Ready && after.failures == n.failures + 1
              && after.active == (n.failures + 1 <= tree[i].maxRepeat)
    ensures forall j :: 0 <= j < |tree| && j != i ==> Tick(tree, st, i)[j] == st[j]
  {
  }
}
