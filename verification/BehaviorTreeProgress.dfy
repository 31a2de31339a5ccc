/**
  Behavior trees get done: no reachable state is stuck, only so many ticks can achieve anything, and
  every schedule that goes on visiting all entities settles the root. This rests on thresholds under which
  a parallel must decide and on failures that are shown; both conditions are given here, for all
  thresholds and all controllers.
 */
module BehaviorTreeProgress {
  import opened BehaviorTrees
  import opened BehaviorTreeSafety

  // ---------------------------------------------------------------------------------------------
  // Thresholds
  // ---------------------------------------------------------------------------------------------

  /** Both thresholds are accepted and leave no room to be met at once. */
  predicate ExclusiveThresholds(s: int, f: int, n: nat) {
    ToInt32(s) >= -1 && ToInt32(f) >= -1 && Threshold(s, n) + Threshold(f, n) > n
  }

  lemma ThresholdsExclusive(s: int, f: int, n: nat)
    requires ToInt32(s) >= -1 && ToInt32(f) >= -1
    ensures ExclusiveThresholds(s, f, n) <==>
            forall a: nat, b: nat :: a + b <= n ==> !(Meets(a, ToInt32(s), n) && Meets(b, ToInt32(f), n))
  {
    if !ExclusiveThresholds(s, f, n) {
      var a: nat, b: nat := Threshold(s, n), Threshold(f, n);
      assert Meets(a, ToInt32(s), n) && Meets(b, ToInt32(f), n);
    }
  }

  /** Every outcome of `n` settled children gives a verdict. */
  predicate DecisiveThresholds(s: int, f: int, n: nat) {
    || ToInt32(s) < -1 || ToInt32(f) < -1
    || Threshold(s, n) == 0 || Threshold(f, n) == 0 || Threshold(s, n) + Threshold(f, n) <= n + 1
  }

  /** An outcome that meets neither threshold, if there is one. */
  function UndecidedSuccesses(s: int, n: nat): (a: nat)
    requires ToInt32(s) >= -1 && Threshold(s, n) != 0
  {
    if Threshold(s, n) <= n then Threshold(s, n) - 1 else n
  }

  lemma ThresholdsDecisive(s: int, f: int, n: nat)
    ensures DecisiveThresholds(s, f, n) <==>
            forall a: nat, b: nat :: a + b == n ==> Verdict(a, b, s, f, n) != NotFinished
  {
    if !DecisiveThresholds(s, f, n) {
      var a := UndecidedSuccesses(s, n);
      assert Verdict(a, n - a, s, f, n) == NotFinished;
    }
  }

  ghost predicate Decisive(tree: Tree) {
    forall i :: 0 <= i < |tree| && tree[i].kind.Parallel? && tree[i].children != [] ==>
      DecisiveThresholds(tree[i].kind.successThreshold, tree[i].kind.failureThreshold, |tree[i].children|)
  }

  /** No controller reports RUNNING for a composite that has failed. */
  ghost predicate Frank(tree: Tree) {
    forall i :: 0 <= i < |tree| && !tree[i].kind.Constant? ==> tree[i].runningIfRepeat ==> tree[i].maxRepeat == 0
  }

  // ---------------------------------------------------------------------------------------------
  // Progress
  // ---------------------------------------------------------------------------------------------

  /** The tick is the entity's first, advances its child index, settles it, or uses up a hidden repeat. */
  predicate Progress(tree: Tree, st: seq<Node>, i: nat)
    requires WellFormed(tree) && |st| == |tree| && i < |tree|
  {
    Advanced(st[i], Tick(tree, st, i)[i])
  }

  predicate Advanced(n: Node, after: Node) {
    || after.ticked != n.ticked || after.current != n.current || Settled(after) != Settled(n)
    || (!Settled(after) && after.failures != n.failures)
  }

  /** What an entity can still achieve: its first tick, each advance, each hidden repeat, and settling. */
  function Work(e: Entity, n: Node): nat {
    (if n.ticked then 0 else 1)
    + (if Settled(n) then 0
       else if e.kind.Constant? then if Hides(e, n.failures) then 1 + e.maxRepeat - n.failures else 1
       else if n.failures > 0 then 0
       else if (e.kind.Sequence? || e.kind.Selector?) && n.current <= |e.children| then 1 + |e.children| - n.current
       else 1)
  }

  function TotalWork(tree: Tree, st: seq<Node>): nat
    requires |st| == |tree|
  {
    if tree == [] then 0
    else TotalWork(tree[..|tree| - 1], st[..|st| - 1]) + Work(tree[|tree| - 1], st[|st| - 1])
  }

  /** Progress is paid for in work, and nothing else costs any. */
  predicate Paid(e: Entity, n: Node, after: Node) {
    if Advanced(n, after) then Work(e, after) < Work(e, n) else Work(e, after) == Work(e, n)
  }

  lemma {:induction false} TickWork(tree: Tree, st: seq<Node>, i: nat)
    requires Inv(tree, st) && i < |tree|
    ensures Paid(tree[i], st[i], Tick(tree, st, i)[i])
  {
    if Enabled(st[i]) {
      if tree[i].kind.Constant? {
        assert NodeOk(tree[i], st[i]);
      } else {
        EnabledComposite(tree, st, i);
        CompositeWork(tree, st, i);
      }
    }
  }

  lemma CompositeWork(tree: Tree, st: seq<Node>, i: nat)
    requires AboutToTick(tree, st, i)
    ensures Paid(tree[i], st[i], Tick(tree, st, i)[i])
  {
    var begun := st[i := st[i].(ticked := true)];
    KindWork(tree, begun, i, !st[i].ticked);
  }

  /** The codelet's part: what the tick of a composite does to its own child index. */
  lemma KindWork(tree: Tree, st: seq<Node>, i: nat, first: bool)
    requires |st| == |tree| && i < |tree| && !tree[i].kind.Constant? && Below(tree[i].children, |st|)
    requires tree[i].kind.Switch? && tree[i].children != [] ==> tree[i].kind.desired < |tree[i].children|
    requires forall k :: 0 <= k < |tree[i].children| ==> tree[i].children[k] != i
    requires first ==> st[i].current == 0
    requires !first && tree[i].kind.Switch? ==> st[i].current == tree[i].kind.desired
    ensures var (after, r) := TickKind(st, i, tree[i], first);
            && after[i] == st[i].(condition := after[i].condition, current := after[i].current)
            && (first && !tree[i].kind.Switch? ==> after[i].current == 0)
            && (!first && (tree[i].kind.Switch? || tree[i].kind.Parallel?) ==> after[i].current == st[i].current)
            && (!first && (tree[i].kind.Sequence? || tree[i].kind.Selector?) ==>
                  after[i].current == st[i].current || after[i].current == st[i].current + 1)
  {
    if tree[i].kind.Parallel? {
      var cs := tree[i].children;
      SetConditionsAt(st, cs, Ready, i);
      SetConditionsAt(SetCondition(st, i, Never), cs, Never, i);
    }
  }

  lemma {:induction false} TotalWorkChange(tree: Tree, st: seq<Node>, after: seq<Node>, i: nat)
    requires |st| == |after| == |tree| && i < |tree|
    requires forall j :: 0 <= j < |tree| && j != i ==> Work(tree[j], after[j]) == Work(tree[j], st[j])
    ensures TotalWork(tree, after) == TotalWork(tree, st) - Work(tree[i], st[i]) + Work(tree[i], after[i])
  {
    var last := |tree| - 1;
    if i < last {
      TotalWorkChange(tree[..last], st[..last], after[..last], i);
    } else {
      TotalWorkSame(tree[..last], st[..last], after[..last]);
    }
  }

  lemma {:induction false} TotalWorkSame(tree: Tree, st: seq<Node>, after: seq<Node>)
    requires |st| == |after| == |tree|
    requires forall j :: 0 <= j < |tree| ==> Work(tree[j], after[j]) == Work(tree[j], st[j])
    ensures TotalWork(tree, after) == TotalWork(tree, st)
  {
    if tree != [] {
      var last := |tree| - 1;
      TotalWorkSame(tree[..last], st[..last], after[..last]);
    }
  }

  /** A tick that makes progress uses up work of the tree, and any other tick leaves it as it is. */
  lemma {:induction false} TickTotalWork(tree: Tree, st: seq<Node>, i: nat)
    requires Inv(tree, st) && i < |tree|
    ensures if Progress(tree, st, i) then TotalWork(tree, Tick(tree, st, i)) < TotalWork(tree, st)
            else TotalWork(tree, Tick(tree, st, i)) == TotalWork(tree, st)
  {
    TickWork(tree, st, i);
    TickKeepsOthers(tree, st, i);
    TotalWorkChange(tree, st, Tick(tree, st, i), i);
  }

  /** The number of ticks in a run that made progress. */
  ghost function ProgressTicks(tree: Tree, ticks: seq<nat>): nat
    requires WellFormed(tree)
  {
    if ticks == [] then 0
    else
      var before := ticks[..|ticks| - 1];
      var i := ticks[|ticks| - 1];
      ProgressTicks(tree, before) + if i < |tree| && Progress(tree, Run(tree, before), i) then 1 else 0
  }

  /** No interleaving contains more progress than the work the configured tree starts with. */
  lemma {:induction false} ProgressIsBounded(tree: Tree, ticks: seq<nat>)
    requires WellFormed(tree)
    ensures ProgressTicks(tree, ticks) + TotalWork(tree, Run(tree, ticks)) <= TotalWork(tree, InitialState(tree))
  {
    if ticks != [] {
      var before := ticks[..|ticks| - 1];
      ProgressIsBounded(tree, before);
      RunInv(tree, before);
      if ticks[|ticks| - 1] < |tree| { TickTotalWork(tree, Run(tree, before), ticks[|ticks| - 1]); }
    }
  }

  /**
    That work in figures: two for every entity, one more for every child of a sequence or selector, and
    one more for every repeat that a constant hides.
   */
  function Budget(tree: Tree): nat {
    if tree == [] then 0
    else
      var e := tree[|tree| - 1];
      Budget(tree[..|tree| - 1]) + 2
      + if e.kind.Sequence? || e.kind.Selector? then |e.children|
        else if e.kind.Constant? && e.runningIfRepeat then e.maxRepeat
        else 0
  }

  lemma {:induction false} InitialWork(tree: Tree)
    ensures TotalWork(tree, InitialState(tree)) == Budget(tree)
  {
    if tree != [] {
      InitialWork(tree[..|tree| - 1]);
      assert InitialState(tree)[..|tree| - 1] == InitialState(tree[..|tree| - 1]);
    }
  }

  // ---------------------------------------------------------------------------------------------
  // No reachable state is stuck
  // ---------------------------------------------------------------------------------------------

  /** Below every live unsettled entity, or at it, some enabled entity can make progress. */
  lemma {:induction false} SomeEntityProgresses(tree: Tree, st: seq<Node>, i: nat) returns (j: nat)
    requires Inv(tree, st) && Decisive(tree) && Frank(tree)
    requires i < |tree| && Live(tree[i], st[i]) && !Settled(st[i])
    ensures j < |tree| && Enabled(st[j]) && Progress(tree, st, j)
    decreases |tree| - i
  {
    assert NodeOk(tree[i], st[i]);
    j := i;
    if st[i].ticked && !tree[i].kind.Constant? {
      EnabledComposite(tree, st, i);
      var k := ChildToWaitFor(tree, st, i);
      if k < |tree[i].children| {
        j := SomeEntityProgresses(tree, st, tree[i].children[k]);
      }
    } else if !st[i].ticked {
      TickedKeeps(tree, st, i);
    }
  }

  /** A running composite whose own tick would achieve nothing waits for a live unsettled child. */
  lemma ChildToWaitFor(tree: Tree, st: seq<Node>, i: nat) returns (k: nat)
    requires AboutToTick(tree, st, i) && Decisive(tree) && st[i].ticked
    ensures k < |tree[i].children| ==>
              Live(tree[tree[i].children[k]], st[tree[i].children[k]]) && !Settled(st[tree[i].children[k]])
    ensures k >= |tree[i].children| ==> Progress(tree, st, i)
  {
    var cs := tree[i].children;
    assert st[i := st[i].(ticked := true)] == st;
    if !tree[i].kind.Parallel? {
      // a switch keeps the desired child as its current one
      k := if Settled(st[cs[st[i].current]]) then |cs| else st[i].current;
    } else if c :| 0 <= c < |cs| && !Settled(st[cs[c]]) {
      k := c;
    } else {
      k := |cs|;
      SettledParallelDecides(tree, st, i);
    }
  }

  lemma {:induction false} SettledCounts(st: seq<Node>, cs: seq<nat>)
    requires Below(cs, |st|) && forall k :: 0 <= k < |cs| ==> Settled(st[cs[k]])
    ensures CountStatus(st, cs, Success) + CountStatus(st, cs, Failure) == |cs|
  {
    if cs != [] {
      var before := cs[..|cs| - 1];
      assert forall k :: 0 <= k < |before| ==> before[k] == cs[k];
      SettledCounts(st, before);
    }
  }

  lemma SettledParallelDecides(tree: Tree, st: seq<Node>, i: nat)
    requires AboutToTick(tree, st, i) && Decisive(tree) && st[i].ticked && tree[i].kind.Parallel?
    requires forall k :: 0 <= k < |tree[i].children| ==> Settled(st[tree[i].children[k]])
    ensures Progress(tree, st, i)
  {
    var cs := tree[i].children;
    assert st[i := st[i].(ticked := true)] == st;
    NoneUnknown(st, cs);
    SettledCounts(st, cs);
    ThresholdsDecisive(tree[i].kind.successThreshold, tree[i].kind.failureThreshold, |cs|);
    ParallelStops(st, i, tree[i]);
  }

  /** While the root is unsettled some enabled entity's tick makes progress. */
  lemma NeverStuck(tree: Tree, ticks: seq<nat>) returns (j: nat)
    requires WellFormed(tree) && Decisive(tree) && Frank(tree)
    requires !Settled(Run(tree, ticks)[0])
    ensures j < |tree| && Enabled(Run(tree, ticks)[j]) && Progress(tree, Run(tree, ticks), j)
  {
    RunInv(tree, ticks);
    j := SomeEntityProgresses(tree, Run(tree, ticks), 0);
  }

  lemma ConcatAssociates(a: seq<nat>, b: seq<nat>, c: seq<nat>)
    ensures a + (b + c) == a + b + c
  {
  }

  lemma {:induction false} OneMoreTick(tree: Tree, ticks: seq<nat>, j: nat)
    requires WellFormed(tree) && j < |tree| && Progress(tree, Run(tree, ticks), j)
    ensures TotalWork(tree, Run(tree, ticks + [j])) < TotalWork(tree, Run(tree, ticks))
  {
    RunThenTick(tree, ticks, j);
    RunInv(tree, ticks);
    TickTotalWork(tree, Run(tree, ticks), j);
  }

  /**
    Every interleaving, however far it got, can be completed within the tree's budget; the root is then
    settled, and shows the tree's value if the tree has one.
   */
  lemma {:induction false} EveryRunCanFinish(tree: Tree, ticks: seq<nat>) returns (more: seq<nat>)
    requires WellFormed(tree) && Decisive(tree) && Frank(tree)
    ensures |more| <= TotalWork(tree, Run(tree, ticks)) <= Budget(tree)
    ensures Settled(Run(tree, ticks + more)[0])
    ensures Deterministic(tree) ==> Run(tree, ticks + more)[0].status == if Eval(tree, 0) then Success else Failure
    decreases TotalWork(tree, Run(tree, ticks))
  {
    ProgressIsBounded(tree, ticks);
    InitialWork(tree);
    if Settled(Run(tree, ticks)[0]) {
      more := [];
      assert ticks + more == ticks;
      if Deterministic(tree) { SettledShowsValue(tree, ticks, [], 0); }
    } else {
      var j := NeverStuck(tree, ticks);
      OneMoreTick(tree, ticks, j);
      var rest := EveryRunCanFinish(tree, ticks + [j]);
      more := [j] + rest;
      ConcatAssociates(ticks, [j], rest);
    }
  }

  // ---------------------------------------------------------------------------------------------
  // Schedules that visit every entity again and again
  // ---------------------------------------------------------------------------------------------

  /** The two states differ in how often settled entities have failed, and in nothing else. */
  ghost predicate SameButRepeats(st: seq<Node>, after: seq<Node>) {
    && |after| == |st|
    && forall j :: 0 <= j < |st| ==>
         after[j] == if Settled(st[j]) then st[j].(failures := after[j].failures, active := after[j].active) else st[j]
  }

  /** A tick without progress changes nothing else. */
  lemma IdleTick(tree: Tree, st: seq<Node>, i: nat)
    requires Inv(tree, st) && i < |tree| && !Progress(tree, st, i)
    ensures SameButRepeats(st, Tick(tree, st, i))
  {
    if Enabled(st[i]) {
      assert NodeOk(tree[i], st[i]);
      if !tree[i].kind.Constant? {
        EnabledComposite(tree, st, i);
        IdlePoll(tree, st, i);
      }
    }
  }

  lemma IdlePoll(tree: Tree, st: seq<Node>, i: nat)
    requires AboutToTick(tree, st, i) && !Progress(tree, st, i)
    ensures Tick(tree, st, i) == st
  {
    var begun := st[i := st[i].(ticked := true)];
    KindWork(tree, begun, i, !st[i].ticked);
    assert begun == st;
    if tree[i].kind.Parallel? { ParallelStops(st, i, tree[i]); }
  }

  lemma {:induction false} CountStatusFrame(st: seq<Node>, after: seq<Node>, cs: seq<nat>, s: Status)
    requires |after| == |st| && Below(cs, |st|)
    requires forall k :: 0 <= k < |cs| ==> after[cs[k]].status == st[cs[k]].status
    ensures CountStatus(after, cs, s) == CountStatus(st, cs, s)
  {
    if cs != [] {
      var before := cs[..|cs| - 1];
      assert forall k :: 0 <= k < |before| ==> before[k] == cs[k];
      CountStatusFrame(st, after, before, s);
    }
  }

  lemma ParallelIsLocal(st: seq<Node>, after: seq<Node>, i: nat, cs: seq<nat>, s: int, f: int, first: bool)
    requires |after| == |st| && i < |st| && Below(cs, |st|) && after[i] == st[i]
    requires forall k :: 0 <= k < |cs| ==> cs[k] != i && after[cs[k]].status == st[cs[k]].status
    ensures TickParallel(after, i, cs, s, f, first).1 == TickParallel(st, i, cs, s, f, first).1
    ensures TickParallel(after, i, cs, s, f, first).0[i] == TickParallel(st, i, cs, s, f, first).0[i]
  {
    forall x ensures CountStatus(after, cs, x) == CountStatus(st, cs, x) { CountStatusFrame(st, after, cs, x); }
    SetConditionsAt(st, cs, Ready, i);
    SetConditionsAt(after, cs, Ready, i);
    SetConditionsAt(SetCondition(st, i, Never), cs, Never, i);
    SetConditionsAt(SetCondition(after, i, Never), cs, Never, i);
  }

  /** What a tick does to its own entity depends on that entity and on its children's statuses. */
  lemma KindIsLocal(st: seq<Node>, after: seq<Node>, i: nat, e: Entity, first: bool)
    requires |after| == |st| && i < |st| && Below(e.children, |st|) && after[i] == st[i]
    requires e.kind.Switch? && e.children != [] ==> e.kind.desired < |e.children|
    requires forall k :: 0 <= k < |e.children| ==>
               e.children[k] != i && after[e.children[k]].status == st[e.children[k]].status
    ensures TickKind(after, i, e, first).1 == TickKind(st, i, e, first).1
    ensures TickKind(after, i, e, first).0[i] == TickKind(st, i, e, first).0[i]
  {
    match e.kind
    case Parallel(s, f) => ParallelIsLocal(st, after, i, e.children, s, f, first);
    case _ =>
  }

  lemma ProgressPersists(tree: Tree, st: seq<Node>, after: seq<Node>, j: nat)
    requires Inv(tree, st) && SameButRepeats(st, after)
    requires j < |tree| && Enabled(st[j]) && Progress(tree, st, j)
    ensures Enabled(after[j]) && Progress(tree, after, j)
  {
    assert NodeOk(tree[j], st[j]);
    assert after[j] == st[j];
    var cs := tree[j].children;
    forall k | 0 <= k < |cs| ensures cs[k] != j && cs[k] < |tree| && after[cs[k]].status == st[cs[k]].status {
      assert j < tree[j].children[k] < |tree|;
    }
    var n := st[j].(ticked := true);
    KindIsLocal(st[j := n], after[j := n], j, tree[j], !st[j].ticked);
  }

  /** The state after further ticks. */
  ghost function RunFrom(tree: Tree, st: seq<Node>, ticks: seq<nat>): (after: seq<Node>)
    requires WellFormed(tree) && |st| == |tree|
    ensures |after| == |st|
    decreases |ticks|
  {
    if ticks == [] then st else RunFrom(tree, Tick(tree, st, ticks[0]), ticks[1..])
  }

  lemma {:induction false} RunFromInv(tree: Tree, st: seq<Node>, ticks: seq<nat>)
    requires Inv(tree, st)
    ensures Inv(tree, RunFrom(tree, st, ticks))
    ensures TotalWork(tree, RunFrom(tree, st, ticks)) <= TotalWork(tree, st)
    ensures Settled(st[0]) ==> Settled(RunFrom(tree, st, ticks)[0])
    decreases |ticks|
  {
    if ticks != [] {
      TickKeepsInv(tree, st, ticks[0]);
      if ticks[0] < |tree| { TickTotalWork(tree, st, ticks[0]); }
      if Settled(st[0]) { TickKeepsSettled(tree, st, ticks[0], 0); }
      RunFromInv(tree, Tick(tree, st, ticks[0]), ticks[1..]);
    }
  }

  predicate CanProgress(tree: Tree, st: seq<Node>, j: nat)
    requires WellFormed(tree) && |st| == |tree|
  {
    j < |tree| && Enabled(st[j]) && Progress(tree, st, j)
  }

  /** A tick uses up work, or leaves every other entity that can make progress able to. */
  lemma WorkOrWait(tree: Tree, st: seq<Node>, i: nat, j: nat)
    requires Inv(tree, st) && CanProgress(tree, st, j)
    ensures Inv(tree, Tick(tree, st, i)) && TotalWork(tree, Tick(tree, st, i)) <= TotalWork(tree, st)
    ensures TotalWork(tree, Tick(tree, st, i)) < TotalWork(tree, st)
            || (i != j && CanProgress(tree, Tick(tree, st, i), j))
  {
    TickKeepsInv(tree, st, i);
    if i < |tree| {
      TickTotalWork(tree, st, i);
      if !Progress(tree, st, i) {
        IdleTick(tree, st, i);
        ProgressPersists(tree, st, Tick(tree, st, i), j);
      }
    }
  }

  /** Ticks that include the one of an entity that can make progress do make progress. */
  lemma {:induction false} VisitedProgresses(tree: Tree, st: seq<Node>, ticks: seq<nat>, j: nat)
    requires Inv(tree, st) && CanProgress(tree, st, j) && j in ticks
    ensures TotalWork(tree, RunFrom(tree, st, ticks)) < TotalWork(tree, st)
    decreases |ticks|
  {
    var i, after := ticks[0], Tick(tree, st, ticks[0]);
    WorkOrWait(tree, st, i, j);
    if TotalWork(tree, after) < TotalWork(tree, st) {
      RunFromInv(tree, after, ticks[1..]);
    } else {
      VisitedProgresses(tree, after, ticks[1..], j);
    }
  }

  /** Every entity gets a turn. */
  predicate Sweep(tree: Tree, ticks: seq<nat>) {
    forall i: nat :: i < |tree| ==> i in ticks
  }

  function Flatten(sweeps: seq<seq<nat>>): seq<nat> {
    if sweeps == [] then [] else sweeps[0] + Flatten(sweeps[1..])
  }

  lemma {:induction false} RunFromConcat(tree: Tree, st: seq<Node>, a: seq<nat>, b: seq<nat>)
    requires WellFormed(tree) && |st| == |tree|
    ensures RunFrom(tree, st, a + b) == RunFrom(tree, RunFrom(tree, st, a), b)
    decreases |a|
  {
    if a == [] {
      assert a + b == b;
    } else {
      assert (a + b)[1..] == a[1..] + b;
      RunFromConcat(tree, Tick(tree, st, a[0]), a[1..], b);
    }
  }

  lemma SweepProgresses(tree: Tree, st: seq<Node>, sweep: seq<nat>)
    requires Inv(tree, st) && Decisive(tree) && Frank(tree) && !Settled(st[0]) && Sweep(tree, sweep)
    ensures TotalWork(tree, RunFrom(tree, st, sweep)) < TotalWork(tree, st)
  {
    var j := SomeEntityProgresses(tree, st, 0);
    VisitedProgresses(tree, st, sweep, j);
  }

  lemma UnsettledHasWork(tree: Tree, st: seq<Node>)
    requires Inv(tree, st) && Decisive(tree) && Frank(tree) && !Settled(st[0])
    ensures TotalWork(tree, st) > 0
  {
    var j := SomeEntityProgresses(tree, st, 0);
    TickTotalWork(tree, st, j);
  }

  lemma {:induction false} SweepsSettle(tree: Tree, st: seq<Node>, sweeps: seq<seq<nat>>)
    requires Inv(tree, st) && Decisive(tree) && Frank(tree)
    requires |sweeps| >= TotalWork(tree, st) && forall k :: 0 <= k < |sweeps| ==> Sweep(tree, sweeps[k])
    ensures Settled(RunFrom(tree, st, Flatten(sweeps))[0])
    decreases |sweeps|
  {
    if Settled(st[0]) {
      RunFromInv(tree, st, Flatten(sweeps));
    } else {
      UnsettledHasWork(tree, st);
      SweepProgresses(tree, st, sweeps[0]);
      RunFromInv(tree, st, sweeps[0]);
      SweepsSettle(tree, RunFrom(tree, st, sweeps[0]), sweeps[1..]);
      RunFromConcat(tree, st, sweeps[0], Flatten(sweeps[1..]));
    }
  }

  lemma SplitFirst(a: seq<nat>, b: seq<nat>)
    requires b != []
    ensures a + b == a + [b[0]] + b[1..]
  {
  }

  lemma {:induction false} RunIsRunFrom(tree: Tree, ticks: seq<nat>, more: seq<nat>)
    requires WellFormed(tree)
    ensures Run(tree, ticks + more) == RunFrom(tree, Run(tree, ticks), more)
    decreases |more|
  {
    if more == [] {
      assert ticks + more == ticks;
    } else {
      SplitFirst(ticks, more);
      RunThenTick(tree, ticks, more[0]);
      RunIsRunFrom(tree, ticks + [more[0]], more[1..]);
    }
  }

  /** Whatever happened before, a schedule of as many sweeps as the tree's budget settles the root. */
  lemma FairSchedulesFinish(tree: Tree, ticks: seq<nat>, sweeps: seq<seq<nat>>)
    requires WellFormed(tree) && Decisive(tree) && Frank(tree)
    requires |sweeps| >= Budget(tree) && forall k :: 0 <= k < |sweeps| ==> Sweep(tree, sweeps[k])
    ensures Settled(Run(tree, ticks + Flatten(sweeps))[0])
    ensures Deterministic(tree) ==>
              Run(tree, ticks + Flatten(sweeps))[0].status == if Eval(tree, 0) then Success else Failure
  {
    ProgressIsBounded(tree, ticks);
    InitialWork(tree);
    RunInv(tree, ticks);
    SweepsSettle(tree, Run(tree, ticks), sweeps);
    RunIsRunFrom(tree, ticks, Flatten(sweeps));
    if Deterministic(tree) { SettledShowsValue(tree, ticks + Flatten(sweeps), [], 0); }
  }

  // ---------------------------------------------------------------------------------------------
  // What never ends
  // ---------------------------------------------------------------------------------------------

  /** A running parallel whose children are all settled without meeting either threshold. */
  ghost predicate Undecided(tree: Tree, st: seq<Node>, i: nat) {
    && Inv(tree, st) && i < |tree| && tree[i].kind.Parallel? && st[i].status == Running
    && (forall k :: 0 <= k < |tree[i].children| ==> Settled(st[tree[i].children[k]]))
    && Verdict(CountStatus(st, tree[i].children, Success), CountStatus(st, tree[i].children, Failure),
               tree[i].kind.successThreshold, tree[i].kind.failureThreshold, |tree[i].children|) == NotFinished
  }

  lemma ChildStatusesStay(tree: Tree, st: seq<Node>, i: nat, j: nat)
    requires Inv(tree, st) && i < |tree|
    requires forall k :: 0 <= k < |tree[i].children| ==> Settled(st[tree[i].children[k]])
    ensures Below(tree[i].children, |tree|)
    ensures forall k :: 0 <= k < |tree[i].children| ==>
              Tick(tree, st, j)[tree[i].children[k]].status == st[tree[i].children[k]].status
    ensures forall s :: CountStatus(Tick(tree, st, j), tree[i].children, s) == CountStatus(st, tree[i].children, s)
  {
    var cs, after := tree[i].children, Tick(tree, st, j);
    forall k | 0 <= k < |cs| ensures cs[k] < |tree| && after[cs[k]].status == st[cs[k]].status {
      assert i < tree[i].children[k];
      TickKeepsSettled(tree, st, j, cs[k]);
    }
    forall s ensures CountStatus(after, cs, s) == CountStatus(st, cs, s) {
      CountStatusFrame(st, after, cs, s);
    }
  }

  lemma TickKeepsUndecided(tree: Tree, st: seq<Node>, i: nat, j: nat)
    requires Undecided(tree, st, i)
    ensures Undecided(tree, Tick(tree, st, j), i)
  {
    TickKeepsInv(tree, st, j);
    ChildStatusesStay(tree, st, i, j);
    if j < |tree| && Enabled(st[j]) {
      if j == i {
        EnabledComposite(tree, st, i);
        assert st[i := st[i].(ticked := true)] == st;
        NoneUnknown(st, tree[i].children);
      } else {
        TickKeepsOthers(tree, st, j);
      }
    }
  }

  /** Such a parallel stays unfinished forever. */
  lemma {:induction false} UndecidedForever(tree: Tree, ticks: seq<nat>, more: seq<nat>, i: nat)
    requires WellFormed(tree) && Undecided(tree, Run(tree, ticks), i)
    ensures Undecided(tree, Run(tree, ticks + more), i) && Run(tree, ticks + more)[i].status == Running
  {
    if more == [] {
      assert ticks + more == ticks;
    } else {
      UndecidedForever(tree, ticks, more[..|more| - 1], i);
      RunOneMore(tree, ticks, more);
      TickKeepsUndecided(tree, Run(tree, ticks + more[..|more| - 1]), i, more[|more| - 1]);
    }
  }

  lemma TickKeepsFailed(tree: Tree, st: seq<Node>, i: nat, j: nat)
    requires Inv(tree, st) && i < |tree| && !tree[i].kind.Constant? && st[i].failures > 0
    ensures Tick(tree, st, j)[i].failures == st[i].failures && Tick(tree, st, j)[i].status == st[i].status
  {
    assert NodeOk(tree[i], st[i]);
    if j < |tree| && Enabled(st[j]) {
      TickKeepsOthers(tree, st, j);
    }
  }

  /**
    A composite fails once and is not ticked again. Whether that is ever seen depends on its controller
    alone: one that reports RUNNING while it repeats leaves the composite RUNNING forever.
   */
  lemma {:induction false} FailureShows(tree: Tree, ticks: seq<nat>, more: seq<nat>, i: nat)
    requires WellFormed(tree) && i < |tree| && !tree[i].kind.Constant? && Run(tree, ticks)[i].failures > 0
    ensures Run(tree, ticks + more)[i].failures == 1
    ensures Run(tree, ticks + more)[i].status
            == if tree[i].runningIfRepeat && tree[i].maxRepeat >= 1 then Running else Failure
  {
    if more == [] {
      assert ticks + more == ticks;
      RunInv(tree, ticks);
      assert NodeOk(tree[i], Run(tree, ticks)[i]);
    } else {
      var before := ticks + more[..|more| - 1];
      FailureShows(tree, ticks, more[..|more| - 1], i);
      RunInv(tree, before);
      TickKeepsFailed(tree, Run(tree, before), i, more[|more| - 1]);
      RunOneMore(tree, ticks, more);
    }
  }
}
