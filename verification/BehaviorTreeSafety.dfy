/**
  What every interleaving of ticks keeps true of a behavior tree, and that a settled entity shows the
  value of its subtree from then on.
 */
module BehaviorTreeSafety {
  import opened BehaviorTrees

  // ---------------------------------------------------------------------------------------------
  // The invariant
  // ---------------------------------------------------------------------------------------------

  /** Not yet started by its parent. */
  predicate Idle(n: Node) { !n.ticked && n.condition == Wait && n.status == Init }

  /** Settled, or failed and hiding it. */
  predicate Done(n: Node) { Settled(n) || n.failures > 0 }

  /** Started, and not withdrawn before it was done: only a failed constant is ticked again. */
  predicate Live(e: Entity, n: Node) {
    n.condition == Ready || Settled(n) || (n.failures > 0 && !e.kind.Constant?)
  }

  predicate NodeOk(e: Entity, n: Node) {
    && n.status != Unknown
    && (n.status == Init <==> !n.ticked)
    && (n.status == Failure ==> n.failures > 0)
    && (n.failures > 0 ==> n.status == if Hides(e, n.failures) then Running else Failure)
    && (n.active <==> n.failures <= e.maxRepeat) && n.failures <= e.maxRepeat + 1
    && (n.status == Success || (Done(n) && !e.kind.Constant?) ==> n.condition == Never)
    && (n.ticked && e.children == [] ==> Done(n))
    && (!e.kind.Constant? ==> n.failures <= 1)
    && (e.kind.Constant? && Done(n) ==> (n.status == Success <==> e.kind.constantStatus == 0))
  }

  /** Sequence (`pass` is SUCCESS) and selector (`pass` is FAILURE): children are tried one after the other. */
  ghost predicate InOrder(tree: Tree, st: seq<Node>, cs: seq<nat>, n: Node, pass: Status)
    requires |st| == |tree| && Below(cs, |st|)
  {
    && n.current <= |cs|
    && (forall k :: 0 <= k < n.current ==> st[cs[k]].status == pass)
    && (forall k :: n.current < k < |cs| ==> Idle(st[cs[k]]))
    && (!Done(n) ==> n.current < |cs| && Live(tree[cs[n.current]], st[cs[n.current]]))
    && (Settled(n) && n.status == pass ==> n.current == |cs|)
    && (Settled(n) && n.status != pass ==> n.current < |cs| && st[cs[n.current]].status == n.status)
  }

  ghost predicate Selected(tree: Tree, st: seq<Node>, cs: seq<nat>, n: Node, d: nat)
    requires |st| == |tree| && Below(cs, |st|)
  {
    && d < |cs| && n.current == d
    && (forall k :: 0 <= k < |cs| && k != d ==> Idle(st[cs[k]]))
    && (!Done(n) ==> Live(tree[cs[d]], st[cs[d]]))
    && (Settled(n) ==> st[cs[d]].status == n.status)
  }

  ghost predicate ChildrenOk(tree: Tree, st: seq<Node>, i: nat)
    requires |st| == |tree| && i < |tree| && Below(tree[i].children, |st|)
  {
    var n, cs := st[i], tree[i].children;
    if !n.ticked then n.current == 0 && forall k :: 0 <= k < |cs| ==> Idle(st[cs[k]])
    else if cs == [] then true
    else
      match tree[i].kind
      case Constant(_) => true
      case Sequence => InOrder(tree, st, cs, n, Success)
      case Selector => InOrder(tree, st, cs, n, Failure)
      case Switch(d) => Selected(tree, st, cs, n, d)
      case Parallel(_, _) => !Done(n) ==> forall k :: 0 <= k < |cs| ==> Live(tree[cs[k]], st[cs[k]])
  }

  ghost predicate Inv(tree: Tree, st: seq<Node>) {
    && WellFormed(tree) && |st| == |tree|
    && (forall i :: 0 <= i < |tree| ==> NodeOk(tree[i], st[i]) && ChildrenOk(tree, st, i))
    && Live(tree[0], st[0])
  }

  /** Every settled entity shows the value of its subtree. */
  ghost predicate ShowsValues(tree: Tree, st: seq<Node>)
    requires WellFormed(tree) && |st| == |tree|
  {
    forall i :: 0 <= i < |tree| && Settled(st[i]) ==> (st[i].status == Success <==> Eval(tree, i))
  }

  // ---------------------------------------------------------------------------------------------
  // What one tick may change
  // ---------------------------------------------------------------------------------------------

  lemma {:induction false} SetConditionsAt(st: seq<Node>, cs: seq<nat>, c: Condition, j: nat)
    requires Below(cs, |st|) && j < |st|
    ensures SetConditions(st, cs, c)[j] == if j in cs then st[j].(condition := c) else st[j]
  {
    if cs != [] {
      SetConditionsAt(st, cs[..|cs| - 1], c, j);
      assert cs == cs[..|cs| - 1] + [cs[|cs| - 1]];
    }
  }

  /** Another entity keeps everything but its condition, and all of it unless it is a child of the one ticked. */
  ghost predicate OthersKept(st: seq<Node>, after: seq<Node>, i: nat, cs: seq<nat>) {
    && |after| == |st|
    && (forall j :: 0 <= j < |st| && j != i ==> after[j] == st[j].(condition := after[j].condition))
    && (forall j :: 0 <= j < |st| && j != i && j !in cs ==> after[j] == st[j])
  }

  lemma TickKeepsOthers(tree: Tree, st: seq<Node>, i: nat)
    requires WellFormed(tree) && |st| == |tree| && i < |tree|
    ensures OthersKept(st, Tick(tree, st, i), i, tree[i].children)
  {
    if Enabled(st[i]) {
      var begun := st[i := st[i].(ticked := true)];
      KindKeepsOthers(begun, i, tree[i], !st[i].ticked);
    }
  }

  lemma KindKeepsOthers(st: seq<Node>, i: nat, e: Entity, first: bool)
    requires i < |st| && Below(e.children, |st|)
    requires e.kind.Switch? && e.children != [] ==> e.kind.desired < |e.children|
    ensures OthersKept(st, TickKind(st, i, e, first).0, i, e.children)
  {
    match e.kind
    case Parallel(s, f) => ParallelKeepsOthers(st, i, e.children, s, f, first);
    case _ =>
  }

  lemma ParallelKeepsOthers(st: seq<Node>, i: nat, cs: seq<nat>, s: int, f: int, first: bool)
    requires i < |st| && Below(cs, |st|)
    ensures OthersKept(st, TickParallel(st, i, cs, s, f, first).0, i, cs)
  {
    forall j | 0 <= j < |st|
      ensures SetConditions(st, cs, Ready)[j] == if j in cs then st[j].(condition := Ready) else st[j]
      ensures StopAll(st, i, cs)[j] == if j == i || j in cs then st[j].(condition := Never) else st[j]
    {
      SetConditionsAt(st, cs, Ready, j);
      SetConditionsAt(SetCondition(st, i, Never), cs, Never, j);
    }
  }

  /** What the ticked entity owes to its parent, and its children to their own invariant. */
  ghost predicate Progresses(tree: Tree, st: seq<Node>, after: seq<Node>, i: nat)
    requires |after| == |st| == |tree| && i < |st| && Below(tree[i].children, |st|)
  {
    && (Settled(st[i]) ==> after[i].status == st[i].status)
    && Live(tree[i], after[i])
    && after[i].ticked
    && (forall k :: 0 <= k < |tree[i].children| && Done(st[tree[i].children[k]]) ==>
          after[tree[i].children[k]].condition in {st[tree[i].children[k]].condition, Never})
  }

  ghost predicate KeepsNode(tree: Tree, st: seq<Node>, i: nat)
    requires WellFormed(tree) && |st| == |tree| && i < |tree|
  {
    var after := Tick(tree, st, i);
    && NodeOk(tree[i], after[i]) && ChildrenOk(tree, after, i) && Progresses(tree, st, after, i)
  }

  // ---------------------------------------------------------------------------------------------
  // The ticked entity
  // ---------------------------------------------------------------------------------------------

  lemma ConstantKeeps(tree: Tree, st: seq<Node>, i: nat)
    requires Inv(tree, st) && i < |tree| && Enabled(st[i]) && tree[i].kind.Constant?
    ensures KeepsNode(tree, st, i)
  {
    assert NodeOk(tree[i], st[i]);
  }

  /** What holds of an enabled composite: it is not done, and its children are distinct and in order. */
  ghost predicate AboutToTick(tree: Tree, st: seq<Node>, i: nat) {
    && WellFormed(tree) && |st| == |tree| && i < |tree| && Enabled(st[i]) && !tree[i].kind.Constant?
    && !Done(st[i])
    && st[i].status == (if st[i].ticked then Running else Init)
    && (st[i].ticked ==> tree[i].children != [])
    && (forall k :: 0 <= k < |tree[i].children| ==>
          i < tree[i].children[k] < |tree| && NodeOk(tree[tree[i].children[k]], st[tree[i].children[k]]))
    && ChildrenOk(tree, st, i)
    && (forall k, l :: 0 <= k < l < |tree[i].children| ==> tree[i].children[k] != tree[i].children[l])
  }

  lemma EnabledComposite(tree: Tree, st: seq<Node>, i: nat)
    requires Inv(tree, st) && i < |tree| && Enabled(st[i]) && !tree[i].kind.Constant?
    ensures AboutToTick(tree, st, i)
  {
    assert NodeOk(tree[i], st[i]);
    var cs := tree[i].children;
    forall k | 0 <= k < |cs| ensures i < cs[k] < |tree| && tree[cs[k]].k == k {
      assert i < tree[i].children[k] < |tree|;
    }
  }

  /** A polling tick that sets no condition but the entity's own leaves the children as they are. */
  ghost predicate OnlyItself(tree: Tree, st: seq<Node>, after: seq<Node>, i: nat)
    requires |st| == |tree| && i < |tree|
  {
    |after| == |st| && after == st[i := after[i]]
  }

  /** The tick starts one child and reports that it is not finished. */
  ghost predicate Starts(tree: Tree, st: seq<Node>, after: seq<Node>, i: nat, k: nat)
    requires |st| == |tree| && i < |tree| && Below(tree[i].children, |st|)
  {
    && k < |tree[i].children|
    && tree[i].children[k] != i
    && after == st[i := st[i].(ticked := true, status := Running, current := k)]
                  [tree[i].children[k] := st[tree[i].children[k]].(condition := Ready)]
  }

  lemma StartsNode(tree: Tree, st: seq<Node>, after: seq<Node>, i: nat, k: nat)
    requires AboutToTick(tree, st, i) && Starts(tree, st, after, i, k) && Idle(st[tree[i].children[k]])
    ensures NodeOk(tree[i], after[i]) && Progresses(tree, st, after, i)
  {
  }

  lemma StartsInOrder(tree: Tree, st: seq<Node>, after: seq<Node>, i: nat, k: nat, pass: Status)
    requires AboutToTick(tree, st, i) && Starts(tree, st, after, i, k)
    requires forall l :: 0 <= l < k ==> st[tree[i].children[l]].status == pass
    requires forall l :: k <= l < |tree[i].children| ==> Idle(st[tree[i].children[l]])
    ensures InOrder(tree, after, tree[i].children, after[i], pass)
  {
    var cs := tree[i].children;
    forall l | 0 <= l < |cs| && l != k ensures after[cs[l]] == st[cs[l]] {
      assert if l < k then cs[l] != cs[k] else cs[k] != cs[l];
    }
  }

  // ---- sequence ----

  lemma SequenceStarts(tree: Tree, st: seq<Node>, i: nat)
    requires AboutToTick(tree, st, i) && tree[i].kind.Sequence? && !st[i].ticked
    ensures KeepsNode(tree, st, i)
  {
    var after := Tick(tree, st, i);
    if tree[i].children != [] {
      assert Starts(tree, st, after, i, 0);
      StartsNode(tree, st, after, i, 0);
      StartsInOrder(tree, st, after, i, 0, Success);
    }
  }

  lemma SequenceAdvances(tree: Tree, st: seq<Node>, i: nat)
    requires AboutToTick(tree, st, i) && tree[i].kind.Sequence? && st[i].ticked
    requires st[tree[i].children[st[i].current]].status == Success && st[i].current + 1 < |tree[i].children|
    ensures KeepsNode(tree, st, i)
  {
    assert st[i := st[i].(ticked := true)] == st;
    var after, next := Tick(tree, st, i), st[i].current + 1;
    assert Starts(tree, st, after, i, next);
    StartsNode(tree, st, after, i, next);
    StartsInOrder(tree, st, after, i, next, Success);
  }

  lemma SequenceFinishes(tree: Tree, st: seq<Node>, i: nat)
    requires AboutToTick(tree, st, i) && tree[i].kind.Sequence? && st[i].ticked
    requires st[tree[i].children[st[i].current]].status == Success && st[i].current + 1 >= |tree[i].children|
    ensures KeepsNode(tree, st, i)
  {
    assert st[i := st[i].(ticked := true)] == st;
    assert OnlyItself(tree, st, Tick(tree, st, i), i);
  }

  lemma SequenceWaits(tree: Tree, st: seq<Node>, i: nat)
    requires AboutToTick(tree, st, i) && tree[i].kind.Sequence? && st[i].ticked
    requires st[tree[i].children[st[i].current]].status != Success
    ensures KeepsNode(tree, st, i)
  {
    assert st[i := st[i].(ticked := true)] == st;
    assert OnlyItself(tree, st, Tick(tree, st, i), i);
  }

  lemma {:induction false} SequenceKeeps(tree: Tree, st: seq<Node>, i: nat)
    requires AboutToTick(tree, st, i) && tree[i].kind.Sequence?
    ensures KeepsNode(tree, st, i)
  {
    if !st[i].ticked {
      SequenceStarts(tree, st, i);
    } else if st[tree[i].children[st[i].current]].status != Success {
      SequenceWaits(tree, st, i);
    } else if st[i].current + 1 < |tree[i].children| {
      SequenceAdvances(tree, st, i);
    } else {
      SequenceFinishes(tree, st, i);
    }
  }

  // ---- selector ----

  lemma SelectorStarts(tree: Tree, st: seq<Node>, i: nat)
    requires AboutToTick(tree, st, i) && tree[i].kind.Selector? && !st[i].ticked
    ensures KeepsNode(tree, st, i)
  {
    var after := Tick(tree, st, i);
    if tree[i].children != [] {
      assert Starts(tree, st, after, i, 0);
      StartsNode(tree, st, after, i, 0);
      StartsInOrder(tree, st, after, i, 0, Failure);
    }
  }

  lemma SelectorAdvances(tree: Tree, st: seq<Node>, i: nat)
    requires AboutToTick(tree, st, i) && tree[i].kind.Selector? && st[i].ticked
    requires st[tree[i].children[st[i].current]].status == Failure && st[i].current + 1 < |tree[i].children|
    ensures KeepsNode(tree, st, i)
  {
    assert st[i := st[i].(ticked := true)] == st;
    var after, next := Tick(tree, st, i), st[i].current + 1;
    assert Starts(tree, st, after, i, next);
    StartsNode(tree, st, after, i, next);
    StartsInOrder(tree, st, after, i, next, Failure);
  }

  lemma SelectorFinishes(tree: Tree, st: seq<Node>, i: nat)
    requires AboutToTick(tree, st, i) && tree[i].kind.Selector? && st[i].ticked
    requires st[tree[i].children[st[i].current]].status == Failure && st[i].current + 1 >= |tree[i].children|
    ensures KeepsNode(tree, st, i)
  {
    assert st[i := st[i].(ticked := true)] == st;
    assert OnlyItself(tree, st, Tick(tree, st, i), i);
  }

  lemma SelectorWaits(tree: Tree, st: seq<Node>, i: nat)
    requires AboutToTick(tree, st, i) && tree[i].kind.Selector? && st[i].ticked
    requires st[tree[i].children[st[i].current]].status != Failure
    ensures KeepsNode(tree, st, i)
  {
    assert st[i := st[i].(ticked := true)] == st;
    assert OnlyItself(tree, st, Tick(tree, st, i), i);
  }

  lemma {:induction false} SelectorKeeps(tree: Tree, st: seq<Node>, i: nat)
    requires AboutToTick(tree, st, i) && tree[i].kind.Selector?
    ensures KeepsNode(tree, st, i)
  {
    if !st[i].ticked {
      SelectorStarts(tree, st, i);
    } else if st[tree[i].children[st[i].current]].status != Failure {
      SelectorWaits(tree, st, i);
    } else if st[i].current + 1 < |tree[i].children| {
      SelectorAdvances(tree, st, i);
    } else {
      SelectorFinishes(tree, st, i);
    }
  }

  // ---- switch ----

  lemma SwitchStarts(tree: Tree, st: seq<Node>, i: nat)
    requires AboutToTick(tree, st, i) && tree[i].kind.Switch? && !st[i].ticked
    ensures KeepsNode(tree, st, i)
  {
    var after, cs, d := Tick(tree, st, i), tree[i].children, tree[i].kind.desired;
    if cs != [] {
      assert Starts(tree, st, after, i, d);
      StartsNode(tree, st, after, i, d);
      forall l | 0 <= l < |cs| && l != d ensures after[cs[l]] == st[cs[l]] {
        assert if l < d then cs[l] != cs[d] else cs[d] != cs[l];
      }
    }
  }

  lemma SwitchKeeps(tree: Tree, st: seq<Node>, i: nat)
    requires AboutToTick(tree, st, i) && tree[i].kind.Switch?
    ensures KeepsNode(tree, st, i)
  {
    if st[i].ticked {
      assert st[i := st[i].(ticked := true)] == st;
      assert OnlyItself(tree, st, Tick(tree, st, i), i);
    } else {
      SwitchStarts(tree, st, i);
    }
  }

  // ---- parallel ----

  lemma ParallelStarts(tree: Tree, st: seq<Node>, i: nat)
    requires AboutToTick(tree, st, i) && tree[i].kind.Parallel? && !st[i].ticked
    ensures KeepsNode(tree, st, i)
  {
    var cs := tree[i].children;
    var begun := st[i := st[i].(ticked := true)];
    forall k | 0 <= k < |cs| ensures SetConditions(begun, cs, Ready)[cs[k]] == begun[cs[k]].(condition := Ready) {
      SetConditionsAt(begun, cs, Ready, cs[k]);
    }
    SetConditionsAt(begun, cs, Ready, i);
  }

  /** No child of a running parallel shows an unknown status, so a poll is decided by the counts. */
  lemma {:induction false} NoneUnknown(st: seq<Node>, cs: seq<nat>)
    requires Below(cs, |st|) && forall k :: 0 <= k < |cs| ==> st[cs[k]].status != Unknown
    ensures CountStatus(st, cs, Unknown) == 0
  {
    if cs != [] {
      var before := cs[..|cs| - 1];
      assert forall k :: 0 <= k < |before| ==> before[k] == cs[k];
      NoneUnknown(st, before);
    }
  }

  /** A polling tick of a parallel either changes nothing or stops the parallel and all its children. */
  lemma ParallelStops(st: seq<Node>, i: nat, e: Entity)
    requires i < |st| && Below(e.children, |st|) && e.kind.Parallel?
    ensures var (after, r) := TickKind(st, i, e, false);
            if r == NotFinished then after == st
            else
              && after[i] == st[i].(condition := Never)
              && forall k :: 0 <= k < |e.children| ==> after[e.children[k]].condition == Never
  {
    var cs := e.children;
    forall k | 0 <= k < |cs| ensures StopAll(st, i, cs)[cs[k]].condition == Never {
      SetConditionsAt(SetCondition(st, i, Never), cs, Never, cs[k]);
    }
    SetConditionsAt(SetCondition(st, i, Never), cs, Never, i);
  }

  lemma ParallelPolls(tree: Tree, st: seq<Node>, i: nat)
    requires AboutToTick(tree, st, i) && tree[i].kind.Parallel? && st[i].ticked
    ensures KeepsNode(tree, st, i)
  {
    assert st[i := st[i].(ticked := true)] == st;
    ParallelStops(st, i, tree[i]);
    var (stopped, r) := TickKind(st, i, tree[i], false);
    var after := Tick(tree, st, i);
    assert after == stopped[i := Control(stopped[i], r, tree[i])];
    assert forall k :: 0 <= k < |tree[i].children| ==> after[tree[i].children[k]] == stopped[tree[i].children[k]];
  }

  lemma ParallelKeeps(tree: Tree, st: seq<Node>, i: nat)
    requires AboutToTick(tree, st, i) && tree[i].kind.Parallel?
    ensures KeepsNode(tree, st, i)
  {
    if st[i].ticked { ParallelPolls(tree, st, i); } else { ParallelStarts(tree, st, i); }
  }

  lemma TickedKeeps(tree: Tree, st: seq<Node>, i: nat)
    requires Inv(tree, st) && i < |tree| && Enabled(st[i])
    ensures KeepsNode(tree, st, i)
  {
    if !tree[i].kind.Constant? { EnabledComposite(tree, st, i); }
    match tree[i].kind
    case Constant(_) => ConstantKeeps(tree, st, i);
    case Sequence => SequenceKeeps(tree, st, i);
    case Selector => SelectorKeeps(tree, st, i);
    case Switch(_) => SwitchKeeps(tree, st, i);
    case Parallel(_, _) => ParallelKeeps(tree, st, i);
  }

  // ---------------------------------------------------------------------------------------------
  // The other entities
  // ---------------------------------------------------------------------------------------------

  /** The parent of the ticked entity polls statuses that only get settled, and stay live. */
  lemma ParentKeeps(tree: Tree, st: seq<Node>, after: seq<Node>, j: nat, i: nat, l: nat)
    requires |after| == |st| == |tree| && j < |st| && i < |st| && after[j] == st[j].(condition := after[j].condition)
    requires Below(tree[j].children, |st|) && ChildrenOk(tree, st, j)
    requires l < |tree[j].children| && tree[j].children[l] == i
    requires forall k :: 0 <= k < |tree[j].children| && k != l ==> after[tree[j].children[k]] == st[tree[j].children[k]]
    requires Enabled(st[i]) && Live(tree[i], after[i]) && (Settled(st[i]) ==> after[i].status == st[i].status)
    ensures ChildrenOk(tree, after, j)
  {
    assert !Idle(st[tree[j].children[l]]);
  }

  /** A child's condition may be set, but a composite that is done is not made READY again. */
  lemma OtherNodeKeeps(tree: Tree, st: seq<Node>, after: seq<Node>, i: nat, j: nat)
    requires |st| == |after| == |tree| && i < |tree| && j < |tree| && j != i && Below(tree[i].children, |st|)
    requires NodeOk(tree[j], st[j])
    requires OthersKept(st, after, i, tree[i].children) && Progresses(tree, st, after, i)
    ensures NodeOk(tree[j], after[j])
  {
  }

  /** Only the children of the ticked entity and the entity itself change, and each has one parent. */
  lemma OtherChildKept(tree: Tree, st: seq<Node>, after: seq<Node>, i: nat, j: nat, k: nat)
    requires WellFormed(tree) && |st| == |after| == |tree| && i < |tree| && j < |tree| && j != i
    requires OthersKept(st, after, i, tree[i].children)
    requires k < |tree[j].children| && tree[j].children[k] != i
    ensures after[tree[j].children[k]] == st[tree[j].children[k]]
  {
    assert tree[tree[j].children[k]].parent == j;
  }

  /** An entity none of whose children is ticked finds them as they were. */
  lemma UnrelatedKeeps(tree: Tree, st: seq<Node>, after: seq<Node>, j: nat)
    requires |after| == |st| == |tree| && j < |st| && after[j] == st[j].(condition := after[j].condition)
    requires Below(tree[j].children, |st|) && ChildrenOk(tree, st, j)
    requires forall k :: 0 <= k < |tree[j].children| ==> after[tree[j].children[k]] == st[tree[j].children[k]]
    ensures ChildrenOk(tree, after, j)
  {
  }

  lemma OtherChildrenKeep(tree: Tree, st: seq<Node>, after: seq<Node>, i: nat, j: nat)
    requires WellFormed(tree) && |st| == |after| == |tree| && i < |tree| && j < |tree| && j != i
    requires Below(tree[j].children, |st|) && ChildrenOk(tree, st, j) && Enabled(st[i])
    requires OthersKept(st, after, i, tree[i].children) && Progresses(tree, st, after, i)
    ensures ChildrenOk(tree, after, j)
  {
    var ds := tree[j].children;
    forall k | 0 <= k < |ds| && ds[k] != i ensures after[ds[k]] == st[ds[k]] {
      OtherChildKept(tree, st, after, i, j, k);
    }
    if l :| 0 <= l < |ds| && ds[l] == i {
      forall k | 0 <= k < |ds| && k != l ensures ds[k] != i {
        assert tree[tree[j].children[k]].k == k && tree[tree[j].children[l]].k == l;
      }
      ParentKeeps(tree, st, after, j, i, l);
    } else {
      UnrelatedKeeps(tree, st, after, j);
    }
  }

  lemma TickKeepsInv(tree: Tree, st: seq<Node>, i: nat)
    requires Inv(tree, st)
    ensures Inv(tree, Tick(tree, st, i))
  {
    if i < |tree| && Enabled(st[i]) {
      var after := Tick(tree, st, i);
      TickedKeeps(tree, st, i);
      TickKeepsOthers(tree, st, i);
      forall j | 0 <= j < |tree| && j != i ensures NodeOk(tree[j], after[j]) && ChildrenOk(tree, after, j) {
        OtherNodeKeeps(tree, st, after, i, j);
        OtherChildrenKeep(tree, st, after, i, j);
      }
    }
  }

  lemma InitialInv(tree: Tree)
    requires WellFormed(tree)
    ensures Inv(tree, InitialState(tree))
  {
    forall i | 0 <= i < |tree| ensures ChildrenOk(tree, InitialState(tree), i) {
      forall k | 0 <= k < |tree[i].children| ensures tree[i].children[k] > 0 {
        assert i < tree[i].children[k];
      }
    }
  }

  // ---------------------------------------------------------------------------------------------
  // Whole runs
  // ---------------------------------------------------------------------------------------------

  lemma {:induction false} RunInv(tree: Tree, ticks: seq<nat>)
    requires WellFormed(tree)
    ensures Inv(tree, Run(tree, ticks))
  {
    if ticks == [] {
      InitialInv(tree);
    } else {
      RunInv(tree, ticks[..|ticks| - 1]);
      TickKeepsInv(tree, Run(tree, ticks[..|ticks| - 1]), ticks[|ticks| - 1]);
    }
  }

  lemma {:induction false} RunThenTick(tree: Tree, ticks: seq<nat>, i: nat)
    requires WellFormed(tree)
    ensures Run(tree, ticks + [i]) == Tick(tree, Run(tree, ticks), i)
  {
    assert (ticks + [i])[..|ticks + [i]| - 1] == ticks;
  }

  lemma SplitLast(a: seq<nat>, b: seq<nat>)
    requires b != []
    ensures a + b == a + b[..|b| - 1] + [b[|b| - 1]]
  {
  }

  lemma {:induction false} RunOneMore(tree: Tree, ticks: seq<nat>, more: seq<nat>)
    requires WellFormed(tree) && more != []
    ensures Run(tree, ticks + more) == Tick(tree, Run(tree, ticks + more[..|more| - 1]), more[|more| - 1])
  {
    SplitLast(ticks, more);
    RunThenTick(tree, ticks + more[..|more| - 1], more[|more| - 1]);
  }

  lemma TickKeepsSettled(tree: Tree, st: seq<Node>, i: nat, j: nat)
    requires Inv(tree, st) && j < |tree| && Settled(st[j])
    ensures Tick(tree, st, i)[j].status == st[j].status
  {
    if i < |tree| && Enabled(st[i]) {
      TickedKeeps(tree, st, i);
      TickKeepsOthers(tree, st, i);
    }
  }

  /** An entity that shows SUCCESS or FAILURE goes on showing it whatever is ticked later. */
  lemma {:induction false} SettledForever(tree: Tree, ticks: seq<nat>, more: seq<nat>, i: nat)
    requires WellFormed(tree) && i < |tree| && Settled(Run(tree, ticks)[i])
    ensures Run(tree, ticks + more)[i].status == Run(tree, ticks)[i].status
  {
    if more == [] {
      assert ticks + more == ticks;
    } else {
      var before := ticks + more[..|more| - 1];
      SettledForever(tree, ticks, more[..|more| - 1], i);
      RunInv(tree, before);
      TickKeepsSettled(tree, Run(tree, before), more[|more| - 1], i);
      RunOneMore(tree, ticks, more);
    }
  }

  /** A child of a sequence or selector is started only after every earlier sibling has settled and let it pass. */
  lemma ChildrenStartInOrder(tree: Tree, ticks: seq<nat>, i: nat, k: nat, l: nat)
    requires WellFormed(tree)
    requires i < |tree| && (tree[i].kind.Sequence? || tree[i].kind.Selector?) && k < l < |tree[i].children|
    ensures tree[i].children[k] < |tree| && tree[i].children[l] < |tree|
    ensures !Idle(Run(tree, ticks)[tree[i].children[l]]) ==>
              Run(tree, ticks)[tree[i].children[k]].status == if tree[i].kind.Sequence? then Success else Failure
  {
    RunInv(tree, ticks);
    var st := Run(tree, ticks);
    assert ChildrenOk(tree, st, i);
    assert i < tree[i].children[l] && i < tree[i].children[k];
  }

  // ---------------------------------------------------------------------------------------------
  // Values
  // ---------------------------------------------------------------------------------------------

  /** Successes are at most the true values, failures at most the false ones. */
  lemma {:induction false} CountsBoundValues(st: seq<Node>, cs: seq<nat>, values: seq<bool>)
    requires Below(cs, |st|) && |values| == |cs|
    requires forall k :: 0 <= k < |cs| && Settled(st[cs[k]]) ==> (st[cs[k]].status == Success <==> values[k])
    ensures CountStatus(st, cs, Success) <= Count(values)
    ensures CountStatus(st, cs, Failure) + Count(values) <= |cs|
    ensures (forall k :: 0 <= k < |cs| ==> Settled(st[cs[k]])) ==>
              CountStatus(st, cs, Success) == Count(values) && CountStatus(st, cs, Failure) == |cs| - Count(values)
  {
    if cs != [] {
      var before := cs[..|cs| - 1];
      assert forall k :: 0 <= k < |before| ==> before[k] == cs[k];
      CountsBoundValues(st, before, values[..|cs| - 1]);
    }
  }

  /** With a fixed outcome, counts that the values allow give no verdict but the parallel's value. */
  lemma VerdictIsValue(a: nat, b: nat, values: nat, s: int, f: int, n: nat)
    requires FixedOutcome(s, f, n) && a <= values && b + values <= n
    ensures Verdict(a, b, s, f, n) == Succeeded ==> ToInt32(s) >= -1 && values >= Threshold(s, n)
    ensures BehaviorStatus(Verdict(a, b, s, f, n)) == Failure ==> !(ToInt32(s) >= -1 && values >= Threshold(s, n))
  {
  }

  /** The verdict of a polling tick of a parallel is the value of its subtree. */
  lemma {:induction false} ParallelVerdict(tree: Tree, st: seq<Node>, i: nat)
    requires AboutToTick(tree, st, i) && tree[i].kind.Parallel? && st[i].ticked
    requires Deterministic(tree) && ShowsValues(tree, st)
    ensures var r := TickKind(st, i, tree[i], false).1;
            && (r == Succeeded ==> Eval(tree, i)) && (BehaviorStatus(r) == Failure ==> !Eval(tree, i))
  {
    var cs := tree[i].children;
    NoneUnknown(st, cs);
    forall k | 0 <= k < |cs| && Settled(st[cs[k]])
      ensures st[cs[k]].status == Success <==> ChildValues(tree, i)[k]
    {
      assert i < tree[i].children[k] < |tree|;
    }
    CountsBoundValues(st, cs, ChildValues(tree, i));
    VerdictIsValue(CountStatus(st, cs, Success), CountStatus(st, cs, Failure), Count(ChildValues(tree, i)),
                   tree[i].kind.successThreshold, tree[i].kind.failureThreshold, |cs|);
  }

  lemma ParallelShows(tree: Tree, st: seq<Node>, i: nat)
    requires AboutToTick(tree, st, i) && tree[i].kind.Parallel? && Deterministic(tree) && ShowsValues(tree, st)
    ensures var n := Tick(tree, st, i)[i]; Settled(n) ==> (n.status == Success <==> Eval(tree, i))
  {
    if st[i].ticked {
      assert st[i := st[i].(ticked := true)] == st;
      ParallelVerdict(tree, st, i);
      ParallelStops(st, i, tree[i]);
    } else if tree[i].children != [] {
      SetConditionsAt(st[i := st[i].(ticked := true)], tree[i].children, Ready, i);
    }
  }

  /** The invariant after the tick says how a sequence, selector or switch came to settle. */
  lemma OrderedShows(tree: Tree, after: seq<Node>, i: nat)
    requires WellFormed(tree) && |after| == |tree| && i < |tree| && after[i].ticked && tree[i].children != []
    requires tree[i].kind.Sequence? || tree[i].kind.Selector? || tree[i].kind.Switch?
    requires ChildrenOk(tree, after, i) && Settled(after[i])
    requires forall k :: 0 <= k < |tree[i].children| && Settled(after[tree[i].children[k]]) ==>
               (after[tree[i].children[k]].status == Success <==> Eval(tree, tree[i].children[k]))
    ensures after[i].status == Success <==> Eval(tree, i)
  {
    var cs := tree[i].children;
    if tree[i].kind.Sequence? && after[i].status == Failure {
      assert !Eval(tree, cs[after[i].current]);
    } else if tree[i].kind.Selector? && after[i].status == Success {
      assert Eval(tree, cs[after[i].current]);
    }
  }

  lemma TickedShows(tree: Tree, st: seq<Node>, i: nat)
    requires AboutToTick(tree, st, i) && Deterministic(tree) && ShowsValues(tree, st)
    requires KeepsNode(tree, st, i) && OthersKept(st, Tick(tree, st, i), i, tree[i].children)
    ensures var n := Tick(tree, st, i)[i]; Settled(n) ==> (n.status == Success <==> Eval(tree, i))
  {
    var after, cs := Tick(tree, st, i), tree[i].children;
    if tree[i].kind.Parallel? {
      ParallelShows(tree, st, i);
    } else if cs != [] && Settled(after[i]) {
      forall k | 0 <= k < |cs| && Settled(after[cs[k]]) ensures after[cs[k]].status == Success <==> Eval(tree, cs[k]) {
        assert after[cs[k]].status == st[cs[k]].status;
      }
      OrderedShows(tree, after, i);
    }
  }

  lemma TickShowsValues(tree: Tree, st: seq<Node>, i: nat)
    requires Inv(tree, st) && Deterministic(tree) && ShowsValues(tree, st)
    ensures ShowsValues(tree, Tick(tree, st, i))
  {
    if i < |tree| && Enabled(st[i]) {
      TickedKeeps(tree, st, i);
      TickKeepsOthers(tree, st, i);
      if !tree[i].kind.Constant? {
        EnabledComposite(tree, st, i);
        TickedShows(tree, st, i);
      }
    }
  }

  lemma {:induction false} RunShowsValues(tree: Tree, ticks: seq<nat>)
    requires WellFormed(tree) && Deterministic(tree)
    ensures ShowsValues(tree, Run(tree, ticks))
  {
    if ticks != [] {
      var before := ticks[..|ticks| - 1];
      RunShowsValues(tree, before);
      RunInv(tree, before);
      TickShowsValues(tree, Run(tree, before), ticks[|ticks| - 1]);
    }
  }

  /**
    In every interleaving, an entity that shows SUCCESS or FAILURE shows the value of its subtree,
    and goes on showing it whatever is ticked later.
   */
  lemma SettledShowsValue(tree: Tree, ticks: seq<nat>, more: seq<nat>, i: nat)
    requires WellFormed(tree) && Deterministic(tree) && i < |tree| && Settled(Run(tree, ticks)[i])
    ensures Run(tree, ticks)[i].status == if Eval(tree, i) then Success else Failure
    ensures Run(tree, ticks + more)[i].status == Run(tree, ticks)[i].status
  {
    RunShowsValues(tree, ticks);
    SettledForever(tree, ticks, more, i);
  }

  /** Two interleavings that settle the same entity settle it the same way. */
  lemma InterleavingsAgree(tree: Tree, ticks: seq<nat>, others: seq<nat>, i: nat)
    requires WellFormed(tree) && Deterministic(tree) && i < |tree|
    requires Settled(Run(tree, ticks)[i]) && Settled(Run(tree, others)[i])
    ensures Run(tree, ticks)[i].status == Run(tree, others)[i].status
  {
    SettledShowsValue(tree, ticks, [], i);
    SettledShowsValue(tree, others, [], i);
  }
}
