/**
  The codelets as they run: ticks that update the entities' conditions, child indices and statuses in
  place, each proved to do what the value-level model in `BehaviorTrees` says.
 */
module BehaviorExecutors {
  import opened BehaviorTrees
  import opened BehaviorTreeSafety

  class BehaviorExecutor {
    const tree: Tree
    var entities: array<Node>

    /** The entities the executor has tried to tick so far. */
    ghost var ticks: seq<nat>

    ghost predicate Valid()
      reads this, entities
    {
      WellFormed(tree) && entities[..] == Run(tree, ticks)
    }

    constructor (tree: Tree)
      requires WellFormed(tree)
      ensures Valid() && this.tree == tree && ticks == [] && fresh(entities)
    {
      this.tree := tree;
      var init := InitialState(tree);
      entities := new Node[|tree|](i requires 0 <= i < |tree| => init[i]);
      ticks := [];
      new;
      assert entities[..] == init;
    }

    /** Lets the executor try to tick entity `i`. */
    method Step(i: nat)
      requires Valid()
      modifies this`ticks, entities
      ensures Valid() && ticks == old(ticks) + [i]
      ensures Inv(tree, entities[..]) && (Deterministic(tree) ==> ShowsValues(tree, entities[..]))
    {
      TickEntity(i);
      RunThenTick(tree, ticks, i);
      ticks := ticks + [i];
      RunInv(tree, ticks);
      if Deterministic(tree) { RunShowsValues(tree, ticks); }
    }

    /** Ticks entity `i` if it may be ticked, then lets its controller decide what the executor stores. */
    method TickEntity(i: nat)
      requires WellFormed(tree) && entities.Length == |tree|
      modifies entities
      ensures entities[..] == Tick(tree, old(entities[..]), i)
    {
      ghost var before := entities[..];
      if i < |tree| && Enabled(entities[i]) {
        var first := !entities[i].ticked;
        ChildrenInRange(i);
        entities[i] := entities[i].(ticked := true);
        assert entities[..] == before[i := before[i].(ticked := true)];
        var result := TickCodelet(i, first);
        ControlEntity(i, result);
      }
    }

    lemma ChildrenInRange(i: nat)
      requires WellFormed(tree) && i < |tree|
      ensures Below(tree[i].children, |tree|)
    {
      forall k | 0 <= k < |tree[i].children| ensures tree[i].children[k] < |tree| {
        assert i < tree[i].children[k] < |tree|;
      }
    }

    method TickCodelet(i: nat, first: bool) returns (r: TickResult)
      requires WellFormed(tree) && entities.Length == |tree| && i < |tree|
      modifies entities
      ensures Below(tree[i].children, |tree|)
      ensures (entities[..], r) == TickKind(old(entities[..]), i, tree[i], first)
    {
      ChildrenInRange(i);
      match tree[i].kind
      case Constant(_) => r := ConstantTick(i);
      case Sequence => r := SequenceTick(i, first);
      case Selector => r := SelectorTick(i, first);
      case Switch(_) => r := SwitchTick(i, first);
      case Parallel(_, _) => r := ParallelTick(i, first);
    }

    method ControlEntity(i: nat, r: TickResult)
      requires i < entities.Length && i < |tree|
      modifies entities
      ensures entities[..] == old(entities[..])[i := Control(old(entities[i]), r, tree[i])]
    {
      var status := BehaviorStatus(r);
      if status == Failure {
        var failures := entities[i].failures + 1;
        if failures <= tree[i].maxRepeat {
          if tree[i].runningIfRepeat {
            status := Running;
          }
          entities[i] := entities[i].(failures := failures, active := true);
        } else {
          entities[i] := entities[i].(failures := failures, active := false);
        }
      }
      entities[i] := entities[i].(status := status);
    }

    method SetConditionOf(i: nat, c: Condition)
      requires i < entities.Length
      modifies entities
      ensures entities[..] == SetCondition(old(entities[..]), i, c)
    {
      entities[i] := entities[i].(condition := c);
    }

    method GetChildStatus(i: nat, k: nat) returns (s: Status)
      requires i < |tree| && Below(tree[i].children, entities.Length)
      ensures s == StatusOf(entities[..], tree[i].children, k)
    {
      if k >= |tree[i].children| { return Unknown; }
      s := entities[tree[i].children[k]].status;
    }

    method ConstantTick(i: nat) returns (r: TickResult)
      requires i < |tree| && i < entities.Length && tree[i].kind.Constant?
      modifies entities
      ensures (entities[..], r) == TickConstant(old(entities[..]), i, tree[i].kind.constantStatus)
    {
      if tree[i].kind.constantStatus == 0 {
        SetConditionOf(i, Never);
        r := Succeeded;
      } else {
        SetConditionOf(i, Ready);
        r := Failed;
      }
    }

    method SequenceTick(i: nat, first: bool) returns (r: TickResult)
      requires i < |tree| && i < entities.Length && Below(tree[i].children, entities.Length)
      modifies entities
      ensures (entities[..], r) == TickSequence(old(entities[..]), i, tree[i].children, first)
    {
      var cs := tree[i].children;
      if first {
        if |cs| == 0 {
          SetConditionOf(i, Never);
          return Succeeded;
        }
        entities[i] := entities[i].(current := 0);
        assert entities[..] == old(entities[..])[i := old(entities[i]).(current := 0)];
        SetConditionOf(cs[0], Ready);
        return NotFinished;
      }
      var status := GetChildStatus(i, entities[i].current);
      match status
      case Success =>
        entities[i] := entities[i].(current := entities[i].current + 1);
        assert entities[..] == old(entities[..])[i := old(entities[i]).(current := old(entities[i].current) + 1)];
        if entities[i].current >= |cs| {
          SetConditionOf(i, Never);
          r := Succeeded;
        } else {
          SetConditionOf(cs[entities[i].current], Ready);
          r := NotFinished;
        }
      case Failure =>
        SetConditionOf(i, Never);
        r := Failed;
      case Init =>
        SetConditionOf(i, Ready);
        r := NotFinished;
      case Running =>
        SetConditionOf(i, Ready);
        r := NotFinished;
      case Unknown =>
        SetConditionOf(i, Never);
        r := QueryNotFound;
    }

    method SelectorTick(i: nat, first: bool) returns (r: TickResult)
      requires i < |tree| && i < entities.Length && Below(tree[i].children, entities.Length)
      modifies entities
      ensures (entities[..], r) == TickSelector(old(entities[..]), i, tree[i].children, first)
    {
      var cs := tree[i].children;
      if first {
        if |cs| == 0 {
          SetConditionOf(i, Never);
          return Failed;
        }
        entities[i] := entities[i].(current := 0);
        assert entities[..] == old(entities[..])[i := old(entities[i]).(current := 0)];
        SetConditionOf(cs[0], Ready);
        return NotFinished;
      }
      var status := GetChildStatus(i, entities[i].current);
      match status
      case Success =>
        SetConditionOf(i, Never);
        r := Succeeded;
      case Failure =>
        entities[i] := entities[i].(current := entities[i].current + 1);
        assert entities[..] == old(entities[..])[i := old(entities[i]).(current := old(entities[i].current) + 1)];
        if entities[i].current >= |cs| {
          SetConditionOf(i, Never);
          r := Failed;
        } else {
          SetConditionOf(cs[entities[i].current], Ready);
          r := NotFinished;
        }
      case Init => r := NotFinished;
      case Running => r := NotFinished;
      case Unknown =>
        SetConditionOf(i, Never);
        r := QueryNotFound;
    }

    method SwitchTick(i: nat, first: bool) returns (r: TickResult)
      requires i < |tree| && i < entities.Length && Below(tree[i].children, entities.Length) && tree[i].kind.Switch?
      requires tree[i].children != [] ==> tree[i].kind.desired < |tree[i].children|
      modifies entities
      ensures (entities[..], r) == TickSwitch(old(entities[..]), i, tree[i].children, tree[i].kind.desired, first)
    {
      var cs := tree[i].children;
      if first {
        if |cs| == 0 {
          SetConditionOf(i, Never);
          return Succeeded;
        }
        entities[i] := entities[i].(current := tree[i].kind.desired);
        assert entities[..] == old(entities[..])[i := old(entities[i]).(current := tree[i].kind.desired)];
        SetConditionOf(cs[tree[i].kind.desired], Ready);
        return NotFinished;
      }
      var status := GetChildStatus(i, entities[i].current);
      match status
      case Success =>
        SetConditionOf(i, Never);
        r := Succeeded;
      case Failure =>
        SetConditionOf(i, Never);
        r := Failed;
      case Init =>
        SetConditionOf(i, Ready);
        r := NotFinished;
      case Running =>
        SetConditionOf(i, Ready);
        r := NotFinished;
      case Unknown =>
        SetConditionOf(i, Never);
        r := QueryNotFound;
    }

    /** `startChild` on every child, or `stopAllChild`. */
    method SetAllChildren(i: nat, c: Condition)
      requires i < |tree| && Below(tree[i].children, entities.Length)
      modifies entities
      ensures entities[..] == SetConditions(old(entities[..]), tree[i].children, c)
    {
      var cs := tree[i].children;
      var k := 0;
      while k < |cs|
        invariant 0 <= k <= |cs|
        invariant entities[..] == SetConditions(old(entities[..]), cs[..k], c)
      {
        assert cs[..k + 1][..k] == cs[..k];
        SetConditionOf(cs[k], c);
        k := k + 1;
      }
      assert cs[..|cs|] == cs;
    }

    method ParallelTick(i: nat, first: bool) returns (r: TickResult)
      requires i < |tree| && i < entities.Length && Below(tree[i].children, entities.Length) && tree[i].kind.Parallel?
      modifies entities
      ensures (entities[..], r) == TickParallel(old(entities[..]), i, tree[i].children,
                                                tree[i].kind.successThreshold, tree[i].kind.failureThreshold, first)
    {
      var cs := tree[i].children;
      if first {
        if |cs| == 0 {
          SetConditionOf(i, Never);
          return Succeeded;
        }
        SetAllChildren(i, Ready);
        return NotFinished;
      }
      var successes, failures, known := CountChildren(i);
      if !known {
        r := QueryNotFound;
      } else if ToInt32(tree[i].kind.successThreshold) < -1 {
        r := ArgumentOutOfRange;
      } else if Meets(successes, ToInt32(tree[i].kind.successThreshold), |cs|) {
        r := Succeeded;
      } else if ToInt32(tree[i].kind.failureThreshold) < -1 {
        r := ArgumentOutOfRange;
      } else if Meets(failures, ToInt32(tree[i].kind.failureThreshold), |cs|) {
        r := Failed;
      } else {
        return NotFinished;
      }
      SetConditionOf(i, Never);
      SetAllChildren(i, Never);
    }

    /** The counting loop, which gives up at the first unknown status. */
    method CountChildren(i: nat) returns (successes: nat, failures: nat, known: bool)
      requires i < |tree| && Below(tree[i].children, entities.Length)
      ensures known <==> CountStatus(entities[..], tree[i].children, Unknown) == 0
      ensures known ==> successes == CountStatus(entities[..], tree[i].children, Success)
      ensures known ==> failures == CountStatus(entities[..], tree[i].children, Failure)
    {
      var cs := tree[i].children;
      successes, failures := 0, 0;
      var k := 0;
      while k < |cs|
        invariant 0 <= k <= |cs|
        invariant successes == CountStatus(entities[..], cs[..k], Success)
        invariant failures == CountStatus(entities[..], cs[..k], Failure)
        invariant CountStatus(entities[..], cs[..k], Unknown) == 0
      {
        assert cs[..k + 1][..k] == cs[..k];
        var status := GetChildStatus(i, k);
        match status {
          case Success => successes := successes + 1;
          case Failure => failures := failures + 1;
          case Init =>
          case Running =>
          case Unknown =>
            CountGrows(entities[..], cs, k + 1, Unknown);
            return successes, failures, false;
        }
        k := k + 1;
      }
      assert cs[..|cs|] == cs;
      known := true;
    }
  }

  lemma {:induction false} CountGrows(st: seq<Node>, cs: seq<nat>, k: nat, s: Status)
    requires Below(cs, |st|) && k <= |cs|
    ensures CountStatus(st, cs[..k], s) <= CountStatus(st, cs, s)
  {
    if k == |cs| {
      assert cs[..k] == cs;
    } else {
      CountGrows(st, cs[..|cs| - 1], k, s);
      assert cs[..|cs| - 1][..k] == cs[..k];
    }
  }
}
