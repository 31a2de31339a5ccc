/**
  The value-level model of the behavior-tree codelets, which coordinate only through scheduling
  conditions and polled statuses: one tick of any node, and what a tree evaluates to.

  The entity executor (gxf/std/entity_executor.cpp) and the scheduling terms are not modelled themselves.
  What is used of them: the root starts READY and every other entity in WAIT, statuses start at INIT, one
  tick runs at a time, only active entities whose condition is READY are ticked, and the status the
  controller returns is stored as the entity's.
 */
module BehaviorTrees {

  datatype Condition = Ready | Wait | Never

  datatype Status = Init | Success | Running | Failure | Unknown

  datatype TickResult = Succeeded | NotFinished | Failed | QueryNotFound | ArgumentOutOfRange

  datatype Kind =
    | Constant(constantStatus: nat)
    | Sequence
    | Selector
    | Switch(desired: nat)
    | Parallel(successThreshold: int, failureThreshold: int)

  /**
    One configured entity: its codelet, its children, the repeat limit of its controller and whether that
    controller reports RUNNING while it repeats, and its place in the tree, the k-th child of its parent.
   */
  datatype Entity = Entity(kind: Kind, children: seq<nat>, maxRepeat: nat, runningIfRepeat: bool, parent: nat, k: nat)

  type Tree = seq<Entity>

  /**
    Entities are numbered so that parents come before their children, as any finite tree allows;
    entity 0 is the root. Every child has one place, and a switch selects one of its children.
   */
  ghost predicate WellFormed(tree: Tree) {
    && |tree| > 0
    && (forall i, k :: 0 <= i < |tree| && 0 <= k < |tree[i].children| ==>
          i < tree[i].children[k] < |tree|
          && tree[tree[i].children[k]].parent == i && tree[tree[i].children[k]].k == k)
    && (forall i :: 0 <= i < |tree| && tree[i].kind.Constant? ==> tree[i].children == [])
    && (forall i :: 0 <= i < |tree| && tree[i].kind.Switch? && tree[i].children != [] ==>
          tree[i].kind.desired < |tree[i].children|)
  }

  /** All of the listed entities are below `n`. */
  predicate Below(children: seq<nat>, n: nat) {
    forall k :: 0 <= k < |children| ==> children[k] < n
  }

  /** The run-time fields of one entity. */
  datatype Node = Node(condition: Condition, status: Status, ticked: bool, current: nat, failures: nat, active: bool)

  predicate Settled(n: Node) { n.status == Success || n.status == Failure }

  predicate Enabled(n: Node) { n.condition == Ready && n.active }

  // ---------------------------------------------------------------------------------------------
  // One tick
  // ---------------------------------------------------------------------------------------------

  function SetCondition(st: seq<Node>, i: nat, c: Condition): (r: seq<Node>)
    requires i < |st|
    ensures |r| == |st|
  {
    st[i := st[i].(condition := c)]
  }

  function StatusOf(st: seq<Node>, children: seq<nat>, k: nat): Status
    requires Below(children, |st|)
  {
    if k < |children| then st[children[k]].status else Unknown
  }

  function TickConstant(st: seq<Node>, i: nat, constantStatus: nat): (r: (seq<Node>, TickResult))
    requires i < |st|
    ensures |r.0| == |st|
  {
    if constantStatus == 0 then (SetCondition(st, i, Never), Succeeded) else (SetCondition(st, i, Ready), Failed)
  }

  function TickSequence(st: seq<Node>, i: nat, children: seq<nat>, first: bool): (r: (seq<Node>, TickResult))
    requires i < |st| && Below(children, |st|)
    ensures |r.0| == |st|
  {
    if first then
      if children == [] then (SetCondition(st, i, Never), Succeeded)
      else (SetCondition(st[i := st[i].(current := 0)], children[0], Ready), NotFinished)
    else
      match StatusOf(st, children, st[i].current)
      case Success =>
        var next := st[i].current + 1;
        var moved := st[i := st[i].(current := next)];
        if next >= |children| then (SetCondition(moved, i, Never), Succeeded)
        else (SetCondition(moved, children[next], Ready), NotFinished)
      case Failure => (SetCondition(st, i, Never), Failed)
      case Init => (SetCondition(st, i, Ready), NotFinished)
      case Running => (SetCondition(st, i, Ready), NotFinished)
      case Unknown => (SetCondition(st, i, Never), QueryNotFound)
  }

  function TickSelector(st: seq<Node>, i: nat, children: seq<nat>, first: bool): (r: (seq<Node>, TickResult))
    requires i < |st| && Below(children, |st|)
    ensures |r.0| == |st|
  {
    if first then
      if children == [] then (SetCondition(st, i, Never), Failed)
      else (SetCondition(st[i := st[i].(current := 0)], children[0], Ready), NotFinished)
    else
      match StatusOf(st, children, st[i].current)
      case Success => (SetCondition(st, i, Never), Succeeded)
      case Failure =>
        var next := st[i].current + 1;
        var moved := st[i := st[i].(current := next)];
        if next >= |children| then (SetCondition(moved, i, Never), Failed)
        else (SetCondition(moved, children[next], Ready), NotFinished)
      case Init => (st, NotFinished)
      case Running => (st, NotFinished)
      case Unknown => (SetCondition(st, i, Never), QueryNotFound)
  }

  function TickSwitch(st: seq<Node>, i: nat, children: seq<nat>, desired: nat, first: bool)
    : (r: (seq<Node>, TickResult))
    requires i < |st| && Below(children, |st|)
    requires children != [] ==> desired < |children|
    ensures |r.0| == |st|
  {
    if first then
      if children == [] then (SetCondition(st, i, Never), Succeeded)
      else (SetCondition(st[i := st[i].(current := desired)], children[desired], Ready), NotFinished)
    else
      match StatusOf(st, children, st[i].current)
      case Success => (SetCondition(st, i, Never), Succeeded)
      case Failure => (SetCondition(st, i, Never), Failed)
      case Init => (SetCondition(st, i, Ready), NotFinished)
      case Running => (SetCondition(st, i, Ready), NotFinished)
      case Unknown => (SetCondition(st, i, Never), QueryNotFound)
  }

  /** The conversion of a 64-bit parameter to a 32-bit `int`. */
  function ToInt32(x: int): int {
    var low := x % 0x1_0000_0000;
    if low < 0x8000_0000 then low else low - 0x1_0000_0000
  }

  /** A count meets a threshold: -1 asks for all `n`; its own conversion to `size_t` is met by no count. */
  predicate Meets(count: nat, threshold: int, n: nat) {
    (threshold == -1 && count == n) || (threshold >= 0 && count >= threshold)
  }

  function SetConditions(st: seq<Node>, children: seq<nat>, c: Condition): (r: seq<Node>)
    requires Below(children, |st|)
    ensures |r| == |st|
  {
    if children == [] then st
    else SetCondition(SetConditions(st, children[..|children| - 1], c), children[|children| - 1], c)
  }

  /** How many of the children show the status. */
  function CountStatus(st: seq<Node>, children: seq<nat>, s: Status): (n: nat)
    requires Below(children, |st|)
    ensures n <= |children|
  {
    if children == [] then 0
    else CountStatus(st, children[..|children| - 1], s) + if st[children[|children| - 1]].status == s then 1 else 0
  }

  function StopAll(st: seq<Node>, i: nat, children: seq<nat>): (r: seq<Node>)
    requires i < |st| && Below(children, |st|)
    ensures |r| == |st|
  {
    SetConditions(SetCondition(st, i, Never), children, Never)
  }

  /** What a poll of a parallel finds, from how many of its `n` children succeeded and failed so far. */
  function Verdict(successes: nat, failures: nat, s: int, f: int, n: nat): TickResult {
    if ToInt32(s) < -1 then ArgumentOutOfRange
    else if Meets(successes, ToInt32(s), n) then Succeeded
    else if ToInt32(f) < -1 then ArgumentOutOfRange
    else if Meets(failures, ToInt32(f), n) then Failed
    else NotFinished
  }

  function TickParallel(st: seq<Node>, i: nat, children: seq<nat>, s: int, f: int, first: bool)
    : (r: (seq<Node>, TickResult))
    requires i < |st| && Below(children, |st|)
    ensures |r.0| == |st|
  {
    if first then
      if children == [] then (SetCondition(st, i, Never), Succeeded)
      else (SetConditions(st, children, Ready), NotFinished)
    else if CountStatus(st, children, Unknown) > 0 then (StopAll(st, i, children), QueryNotFound)
    else
      var verdict := Verdict(CountStatus(st, children, Success), CountStatus(st, children, Failure), s, f, |children|);
      (if verdict == NotFinished then st else StopAll(st, i, children), verdict)
  }

  function TickKind(st: seq<Node>, i: nat, e: Entity, first: bool): (r: (seq<Node>, TickResult))
    requires i < |st| && Below(e.children, |st|)
    requires e.kind.Switch? && e.children != [] ==> e.kind.desired < |e.children|
    ensures |r.0| == |st|
  {
    match e.kind
    case Constant(c) => TickConstant(st, i, c)
    case Sequence => TickSequence(st, i, e.children, first)
    case Selector => TickSelector(st, i, e.children, first)
    case Switch(d) => TickSwitch(st, i, e.children, d, first)
    case Parallel(s, f) => TickParallel(st, i, e.children, s, f, first)
  }

  /** The status that the controller derives from a tick result. */
  function BehaviorStatus(r: TickResult): Status {
    match r
    case Succeeded => Success
    case NotFinished => Running
    case _ => Failure
  }

  /** A failed entity that will be ticked again and is to look as if it were still running meanwhile. */
  predicate Hides(e: Entity, failures: nat) { e.runningIfRepeat && failures <= e.maxRepeat }

  /** The entity after `control`: a failed tick counts as a repeat, and past the limit the entity is deactivated. */
  function Control(n: Node, r: TickResult, e: Entity): Node {
    var status := BehaviorStatus(r);
    if status == Failure then
      n.(status := if Hides(e, n.failures + 1) then Running else Failure,
         failures := n.failures + 1, active := n.failures + 1 <= e.maxRepeat)
    else n.(status := status)
  }

  /** One tick of entity `i`, if it may be ticked. */
  function Tick(tree: Tree, st: seq<Node>, i: nat): (r: seq<Node>)
    requires WellFormed(tree) && |st| == |tree|
    ensures |r| == |st|
  {
    if i >= |tree| || !Enabled(st[i]) then st
    else
      var (after, result) := TickKind(st[i := st[i].(ticked := true)], i, tree[i], !st[i].ticked);
      after[i := Control(after[i], result, tree[i])]
  }

  function InitialState(tree: Tree): (st: seq<Node>)
    ensures |st| == |tree|
  {
    seq(|tree|, i => Node(if i == 0 then Ready else Wait, Init, false, 0, 0, true))
  }

  /** The state after any interleaving: a list of the entities the executor tries to tick. */
  ghost function Run(tree: Tree, ticks: seq<nat>): (st: seq<Node>)
    requires WellFormed(tree)
    ensures |st| == |tree|
  {
    if ticks == [] then InitialState(tree) else Tick(tree, Run(tree, ticks[..|ticks| - 1]), ticks[|ticks| - 1])
  }

  // ---------------------------------------------------------------------------------------------
  // What a tree means
  // ---------------------------------------------------------------------------------------------

  function Threshold(threshold: int, n: nat): int {
    if ToInt32(threshold) == -1 then n else ToInt32(threshold)
  }

  /**
    The children's values alone decide what a parallel of `n` children settles to: the success threshold is
    rejected, asks for nothing or is out of reach, or no children can meet both thresholds.
   */
  predicate FixedOutcome(s: int, f: int, n: nat) {
    || ToInt32(s) < -1 || ToInt32(s) == 0 || ToInt32(s) > n
    || (ToInt32(f) >= -1 && Threshold(s, n) + Threshold(f, n) > n)
  }

  ghost predicate Deterministic(tree: Tree) {
    forall i :: 0 <= i < |tree| && tree[i].kind.Parallel? && tree[i].children != [] ==>
      FixedOutcome(tree[i].kind.successThreshold, tree[i].kind.failureThreshold, |tree[i].children|)
  }

  ghost function Count(bs: seq<bool>): (n: nat)
    ensures n <= |bs|
  {
    if bs == [] then 0 else Count(bs[..|bs| - 1]) + if bs[|bs| - 1] then 1 else 0
  }

  /** The value of a subtree: and, or, the selected child, or enough successes. */
  ghost predicate Eval(tree: Tree, i: nat)
    requires WellFormed(tree) && i < |tree|
    decreases |tree| - i, 1
  {
    var cs := tree[i].children;
    match tree[i].kind
    case Constant(c) => c == 0
    case Sequence => forall k :: 0 <= k < |cs| ==> Eval(tree, cs[k])
    case Selector => exists k :: 0 <= k < |cs| && Eval(tree, cs[k])
    case Switch(d) => cs == [] || Eval(tree, cs[d])
    case Parallel(s, _) =>
      cs == [] || (ToInt32(s) >= -1 && Count(ChildValues(tree, i)) >= Threshold(s, |cs|))
  }

  ghost function ChildValues(tree: Tree, i: nat): (bs: seq<bool>)
    requires WellFormed(tree) && i < |tree|
    ensures |bs| == |tree[i].children|
    decreases |tree| - i, 0
  {
    seq(|tree[i].children|, k requires 0 <= k < |tree[i].children| => Eval(tree, tree[i].children[k]))
  }
}
