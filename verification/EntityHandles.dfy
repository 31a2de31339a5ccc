/**
  Reference counting by entity handles: what constructors, assignments and destruction of handles do to
  the runtime's reference counts, over any sequence of such calls.
 */
module EntityHandles {
  import opened Wrappers

  const NULL_UID: nat := 0

  datatype Ref = Ref(context: nat, eid: nat)

  // ---------------------------------------------------------------------------------------------
  // The balance of counts and handles
  // ---------------------------------------------------------------------------------------------

  ghost function Holders<H>(held: map<H, Ref>, r: Ref): set<H> {
    set h | h in held && held[h] == r
  }

  /**
    Every entity's count is the number of live handles to it plus the references nobody owns yet, and
    every entity referred to in either way exists. Until it is first referenced an entity has count 0 here,
    where the runtime has not enabled counting for it.
   */
  ghost predicate Balanced<H>(counts: map<Ref, nat>, held: map<H, Ref>, unowned: multiset<Ref>) {
    && (forall r {:trigger Holders(held, r)} :: r in counts ==> counts[r] == |Holders(held, r)| + unowned[r])
    && (forall r :: r in counts ==> r.eid != NULL_UID)
    && (forall h :: h in held ==> held[h] in counts)
    && (forall r :: r in unowned ==> r in counts)
  }

  /**
    The counts after a decrement: an entity whose count drops to zero is gone. Where counting is not enabled
    there is nothing to decrement, and the entity stays.
   */
  function Decremented(counts: map<Ref, nat>, r: Ref): map<Ref, nat>
    requires r in counts
  {
    if counts[r] == 0 then counts
    else if counts[r] == 1 then counts - {r}
    else counts[r := counts[r] - 1]
  }

  lemma HeldIsCounted<H>(counts: map<Ref, nat>, held: map<H, Ref>, unowned: multiset<Ref>, h: H)
    requires Balanced(counts, held, unowned) && h in held
    ensures held[h] in counts && counts[held[h]] >= 1
  {
    assert h in Holders(held, held[h]);
  }

  lemma BalanceShare<H>(counts: map<Ref, nat>, held: map<H, Ref>, unowned: multiset<Ref>, h: H, r: Ref)
    requires Balanced(counts, held, unowned) && h !in held && r in counts
    ensures Balanced(counts[r := counts[r] + 1], held[h := r], unowned)
  {
    forall q | q in counts ensures |Holders(held[h := r], q)| == |Holders(held, q)| + if q == r then 1 else 0 {
      HoldersAdd(held, h, r, q);
    }
    assert forall q {:trigger Holders(held[h := r], q)} :: q in counts ==> counts[q] == |Holders(held, q)| + unowned[q];
  }

  lemma BalanceOwn<H>(counts: map<Ref, nat>, held: map<H, Ref>, unowned: multiset<Ref>, h: H, r: Ref)
    requires Balanced(counts, held, unowned) && h !in held && r in unowned
    ensures Balanced(counts, held[h := r], unowned - multiset{r})
  {
    forall q | q in counts ensures |Holders(held[h := r], q)| == |Holders(held, q)| + if q == r then 1 else 0 {
      HoldersAdd(held, h, r, q);
    }
    assert forall q {:trigger Holders(held[h := r], q)} :: q in counts ==> counts[q] == |Holders(held, q)| + unowned[q];
  }

  lemma BalanceRelease<H>(counts: map<Ref, nat>, held: map<H, Ref>, unowned: multiset<Ref>, h: H)
    requires Balanced(counts, held, unowned) && h in held
    ensures held[h] in counts && Balanced(Decremented(counts, held[h]), held - {h}, unowned)
  {
    HeldIsCounted(counts, held, unowned, h);
    var r := held[h];
    var rest := held - {h};
    forall q ensures |Holders(rest, q)| == |Holders(held, q)| - if q == r then 1 else 0 {
      HoldersRemove(held, h, q);
    }
    assert forall q {:trigger Holders(rest, q)} :: q in counts ==> counts[q] == |Holders(held, q)| + unowned[q];
    forall g | g in rest ensures held[g] in Decremented(counts, r) {
      if held[g] == r { assert g in Holders(rest, r); }
    }
    assert r in unowned ==> counts[r] >= 2 by { assert |Holders(rest, r)| >= 0; }
  }

  /** Moving is releasing the one handle without the decrement and sharing to the other without the increment. */
  lemma BalanceMove<H>(counts: map<Ref, nat>, held: map<H, Ref>, unowned: multiset<Ref>, from: H, to: H)
    requires Balanced(counts, held, unowned) && from in held && to !in held
    ensures Balanced(counts, (held - {from})[to := held[from]], unowned)
  {
    var after := (held - {from})[to := held[from]];
    forall q ensures |Holders(after, q)| == |Holders(held, q)| {
      HoldersRemove(held, from, q);
      HoldersAdd(held - {from}, to, held[from], q);
    }
    assert forall q {:trigger Holders(after, q)} :: q in counts ==> counts[q] == |Holders(held, q)| + unowned[q];
  }

  lemma HoldersAdd<H>(held: map<H, Ref>, h: H, r: Ref, q: Ref)
    requires h !in held
    ensures |Holders(held[h := r], q)| == |Holders(held, q)| + if q == r then 1 else 0
  {
    assert Holders(held[h := r], q) == if q == r then Holders(held, q) + {h} else Holders(held, q);
  }

  lemma HoldersRemove<H>(held: map<H, Ref>, h: H, q: Ref)
    requires h in held
    ensures |Holders(held - {h}, q)| == |Holders(held, q)| - if q == held[h] then 1 else 0
  {
    assert h in Holders(held, held[h]);
    assert Holders(held - {h}, q) == Holders(held, q) - {h};
  }

  /** An entity is released for good exactly by its last holder, when no unowned reference is left. */
  lemma LastHolderReleases<H>(counts: map<Ref, nat>, held: map<H, Ref>, unowned: multiset<Ref>, h: H)
    requires Balanced(counts, held, unowned) && h in held
    ensures held[h] in counts
    ensures held[h] !in Decremented(counts, held[h]) <==>
            unowned[held[h]] == 0 && forall g :: g in held && held[g] == held[h] ==> g == h
  {
    HeldIsCounted(counts, held, unowned, h);
    var hs := Holders(held, held[h]);
    if |hs| == 1 {
      forall g | g in held && held[g] == held[h] ensures g == h {
        assert g in hs && hs - {h} == {} by { assert |hs - {h}| == 0; }
      }
    } else {
      assert |hs - {h}| > 0;
      var g :| g in hs - {h};
      assert g in held && held[g] == held[h] && g != h;
    }
  }

  /** With all handles destroyed and no reference left unowned, no count is left standing. */
  lemma NoHandlesNoCounts<H>(counts: map<Ref, nat>)
    requires Balanced<H>(counts, map[], multiset{})
    ensures forall r :: r in counts ==> counts[r] == 0
  {
    forall r | r in counts ensures counts[r] == 0 {
      assert Holders<H>(map[], r) == {};
    }
  }

  // ---------------------------------------------------------------------------------------------
  // Sequences of calls
  // ---------------------------------------------------------------------------------------------

  /**
    The handles in existence, which of them hold what, the references nobody owns, the entities' counts
    (0 where counting is not enabled yet), and all entities ever created and ever referenced.
   */
  datatype Books<H> = Books(
    counts: map<Ref, nat>,
    handles: set<H>,
    held: map<H, Ref>,
    unowned: multiset<Ref>,
    created: set<Ref>,
    referenced: set<Ref>)

  /** Balanced, and an entity that was never referenced, and no other, exists with count 0. */
  ghost predicate BooksOk<H>(b: Books<H>) {
    && Balanced(b.counts, b.held, b.unowned)
    && b.held.Keys <= b.handles && b.counts.Keys <= b.created && b.referenced <= b.created
    && (forall r :: r in b.created ==> (r !in b.referenced <==> r in b.counts && b.counts[r] == 0))
  }

  ghost function Created<H>(b: Books<H>, r: Ref): Books<H> {
    b.(counts := b.counts[r := 0], created := b.created + {r})
  }

  /** A reference taken without a handle. */
  ghost function Referenced<H>(b: Books<H>, r: Ref): Books<H>
    requires r in b.counts
  {
    b.(counts := b.counts[r := b.counts[r] + 1], unowned := b.unowned + multiset{r}, referenced := b.referenced + {r})
  }

  ghost function WithHandle<H>(b: Books<H>, h: H): Books<H> { b.(handles := b.handles + {h}) }

  /** An empty handle adopts a reference that nobody owns; a null uid leaves it empty. */
  ghost function Adopted<H>(b: Books<H>, h: H, r: Ref): Books<H> {
    if r.eid == NULL_UID then b else b.(held := b.held[h := r], unowned := b.unowned - multiset{r})
  }

  /** An empty handle takes a reference of its own. */
  ghost function Took<H>(b: Books<H>, h: H, r: Ref): Books<H>
    requires r in b.counts
  {
    b.(counts := b.counts[r := b.counts[r] + 1], held := b.held[h := r], referenced := b.referenced + {r})
  }

  /** An empty handle shares what another holds, if anything. */
  ghost function CopiedTo<H>(b: Books<H>, h: H, other: H): Books<H>
    requires BooksOk(b)
  {
    if other in b.held then Took(b, h, b.held[other]) else b
  }

  /** A handle gives up what it holds, if anything. */
  ghost function Released<H>(b: Books<H>, h: H): Books<H>
    requires BooksOk(b)
  {
    if h in b.held then b.(counts := Decremented(b.counts, b.held[h]), held := b.held - {h}) else b
  }

  /** An empty handle takes over what another holds, if anything. */
  ghost function Moved<H>(b: Books<H>, from: H, to: H): Books<H> {
    if from in b.held then b.(held := (b.held - {from})[to := b.held[from]]) else b
  }

  ghost predicate HoldSame<H>(b: Books<H>, h: H, other: H) {
    if h in b.held then other in b.held && b.held[h] == b.held[other] else other !in b.held
  }

  /** Copy assignment: nothing if both hold the same, otherwise release and then take. */
  ghost function CopyAssigned<H>(b: Books<H>, h: H, other: H): Books<H>
    requires BooksOk(b)
  {
    if HoldSame(b, h, other) then b
    else
      ReleasedOk(b, h);
      CopiedTo(Released(b, h), h, other)
  }

  ghost function MoveAssigned<H>(b: Books<H>, h: H, other: H): Books<H>
    requires BooksOk(b)
  {
    if h == other then b else Moved(Released(b, h), other, h)
  }

  ghost function Destroyed<H>(b: Books<H>, h: H): Books<H>
    requires BooksOk(b)
  {
    Released(b, h).(handles := b.handles - {h})
  }

  datatype Op<H> =
    | Create(r: Ref)
    | TakeReference(r: Ref)
    | Default(h: H)
    | Own(h: H, r: Ref)
    | Shared(h: H, r: Ref)
    | Copy(h: H, other: H)
    | Move(h: H, other: H)
    | CopyAssign(h: H, other: H)
    | MoveAssign(h: H, other: H)
    | Destroy(h: H)

  /** Uids are not reused, a constructor makes a new handle, and other calls name handles there are. */
  ghost predicate Possible<H>(b: Books<H>, op: Op<H>) {
    match op
    case Create(r) => r !in b.created && r.eid != NULL_UID
    case TakeReference(r) => r in b.counts
    case Default(h) => h !in b.handles
    case Own(h, r) => h !in b.handles && (r.eid == NULL_UID || r in b.unowned)
    case Shared(h, r) => h !in b.handles && r in b.counts
    case Copy(h, other) => h !in b.handles && other in b.handles
    case Move(h, other) => h !in b.handles && other in b.handles
    case CopyAssign(h, other) => h in b.handles && other in b.handles
    case MoveAssign(h, other) => h in b.handles && other in b.handles
    case Destroy(h) => h in b.handles
  }

  /** The books after a call; one that is not possible does not happen. */
  ghost function Step<H>(b: Books<H>, op: Op<H>): Books<H>
    requires BooksOk(b)
  {
    if !Possible(b, op) then b
    else
      match op
      case Create(r) => Created(b, r)
      case TakeReference(r) => Referenced(b, r)
      case Default(h) => WithHandle(b, h)
      case Own(h, r) => Adopted(WithHandle(b, h), h, r)
      case Shared(h, r) => Took(WithHandle(b, h), h, r)
      case Copy(h, other) => CopiedTo(WithHandle(b, h), h, other)
      case Move(h, other) => Moved(WithHandle(b, h), other, h)
      case CopyAssign(h, other) => CopyAssigned(b, h, other)
      case MoveAssign(h, other) => MoveAssigned(b, h, other)
      case Destroy(h) => Destroyed(b, h)
  }

  /** The books after a sequence of calls, starting with no entities and no handles. */
  ghost function Run<H>(ops: seq<Op<H>>): (b: Books<H>)
    ensures BooksOk(b)
  {
    if ops == [] then Books(map[], {}, map[], multiset{}, {}, {})
    else
      var before := Run(ops[..|ops| - 1]);
      StepKeepsBooks(before, ops[|ops| - 1]);
      Step(before, ops[|ops| - 1])
  }

  // ---------------------------------------------------------------------------------------------
  // Every call keeps the books
  // ---------------------------------------------------------------------------------------------

  lemma CreatedOk<H>(b: Books<H>, r: Ref)
    requires BooksOk(b) && r !in b.created && r.eid != NULL_UID
    ensures BooksOk(Created(b, r))
  {
    forall h | h in b.held ensures b.held[h] != r { assert b.held[h] in b.counts; }
    assert Holders(b.held, r) == {};
    assert b.unowned[r] == 0;
  }

  lemma ReferencedOk<H>(b: Books<H>, r: Ref)
    requires BooksOk(b) && r in b.counts
    ensures BooksOk(Referenced(b, r))
  {
  }

  lemma TookOk<H>(b: Books<H>, h: H, r: Ref)
    requires BooksOk(b) && h in b.handles && h !in b.held && r in b.counts
    ensures BooksOk(Took(b, h, r))
  {
    BalanceShare(b.counts, b.held, b.unowned, h, r);
  }

  lemma AdoptedOk<H>(b: Books<H>, h: H, r: Ref)
    requires BooksOk(b) && h in b.handles && h !in b.held && (r.eid == NULL_UID || r in b.unowned)
    ensures BooksOk(Adopted(b, h, r))
  {
    if r.eid != NULL_UID { BalanceOwn(b.counts, b.held, b.unowned, h, r); }
  }

  lemma ReleasedOk<H>(b: Books<H>, h: H)
    requires BooksOk(b)
    ensures BooksOk(Released(b, h))
  {
    if h in b.held {
      HeldIsCounted(b.counts, b.held, b.unowned, h);
      BalanceRelease(b.counts, b.held, b.unowned, h);
    }
  }

  lemma MovedOk<H>(b: Books<H>, from: H, to: H)
    requires BooksOk(b) && to in b.handles && to !in b.held
    ensures BooksOk(Moved(b, from, to))
  {
    if from in b.held { BalanceMove(b.counts, b.held, b.unowned, from, to); }
  }

  /** What another handle holds outlives the release of a handle. */
  lemma OthersSurvive<H>(b: Books<H>, h: H, other: H)
    requires BooksOk(b) && other in b.held && other != h
    ensures b.held[other] in Released(b, h).counts && Released(b, h).counts[b.held[other]] >= 1
  {
    ReleasedOk(b, h);
    HeldIsCounted(Released(b, h).counts, Released(b, h).held, Released(b, h).unowned, other);
  }

  lemma CopyAssignedOk<H>(b: Books<H>, h: H, other: H)
    requires BooksOk(b) && h in b.handles
    ensures BooksOk(CopyAssigned(b, h, other))
  {
    if !HoldSame(b, h, other) {
      ReleasedOk(b, h);
      if other in b.held { TookOk(Released(b, h), h, b.held[other]); }
    }
  }

  lemma MoveAssignedOk<H>(b: Books<H>, h: H, other: H)
    requires BooksOk(b) && h in b.handles
    ensures BooksOk(MoveAssigned(b, h, other))
  {
    if h != other {
      ReleasedOk(b, h);
      MovedOk(Released(b, h), other, h);
    }
  }

  lemma DestroyedOk<H>(b: Books<H>, h: H)
    requires BooksOk(b)
    ensures BooksOk(Destroyed(b, h))
  {
    ReleasedOk(b, h);
  }

  lemma StepKeepsBooks<H>(b: Books<H>, op: Op<H>)
    requires BooksOk(b)
    ensures BooksOk(Step(b, op))
  {
    if Possible(b, op) {
      match op
      case Create(r) => CreatedOk(b, r);
      case TakeReference(r) => ReferencedOk(b, r);
      case Default(h) =>
      case Own(h, r) => AdoptedOk(WithHandle(b, h), h, r);
      case Shared(h, r) => TookOk(WithHandle(b, h), h, r);
      case Copy(h, other) => if other in b.held { TookOk(WithHandle(b, h), h, b.held[other]); }
      case Move(h, other) => MovedOk(WithHandle(b, h), other, h);
      case CopyAssign(h, other) => CopyAssignedOk(b, h, other);
      case MoveAssign(h, other) => MoveAssignedOk(b, h, other);
      case Destroy(h) => DestroyedOk(b, h);
    }
  }

  /** What each handle holds after a call, told by what handles held before. */
  ghost function HeldAfter<H>(held: map<H, Ref>, op: Op<H>): map<H, Ref> {
    match op
    case Create(_) => held
    case TakeReference(_) => held
    case Default(_) => held
    case Own(h, r) => if r.eid == NULL_UID then held else held[h := r]
    case Shared(h, r) => held[h := r]
    case Copy(h, other) => if other in held then held[h := held[other]] else held
    case Move(h, other) => if other in held then (held - {other})[h := held[other]] else held
    case CopyAssign(h, other) => if other in held then held[h := held[other]] else held - {h}
    case MoveAssign(h, other) =>
      if h == other then held
      else if other in held then (held - {other})[h := held[other]]
      else held - {h}
    case Destroy(h) => held - {h}
  }

  /** Which references nobody owns after a call. */
  ghost function UnownedAfter<H>(unowned: multiset<Ref>, op: Op<H>): multiset<Ref> {
    match op
    case TakeReference(r) => unowned + multiset{r}
    case Own(_, r) => if r.eid == NULL_UID then unowned else unowned - multiset{r}
    case _ => unowned
  }

  ghost function HandlesAfter<H>(handles: set<H>, op: Op<H>): set<H> {
    match op
    case Default(h) => handles + {h}
    case Own(h, _) => handles + {h}
    case Shared(h, _) => handles + {h}
    case Copy(h, _) => handles + {h}
    case Move(h, _) => handles + {h}
    case Destroy(h) => handles - {h}
    case _ => handles
  }

  /**
    The whole effect of a call: handles, what they hold and what nobody owns are as above, and each entity's
    count is the number of handles that then hold it plus its unowned references. An entity is gone exactly
    if it has been referenced and neither is left.
   */
  lemma {:induction false} StepInFull<H>(ops: seq<Op<H>>, op: Op<H>)
    requires Possible(Run(ops), op)
    ensures var b, after := Run(ops), Run(ops + [op]);
            && after.handles == HandlesAfter(b.handles, op)
            && after.held == HeldAfter(b.held, op)
            && after.unowned == UnownedAfter(b.unowned, op)
            && after.created == (if op.Create? then b.created + {op.r} else b.created)
            && after.referenced
               == if op.TakeReference? || op.Shared? then b.referenced + {op.r} else b.referenced
    ensures var after := Run(ops + [op]);
            && (forall r :: r in after.counts ==>
                  after.counts[r] == |set h | h in after.held && after.held[h] == r| + after.unowned[r])
            && (forall r :: r in after.created ==>
                  (r in after.counts <==>
                   r !in after.referenced || r in after.unowned || exists h :: h in after.held && after.held[h] == r))
  {
    assert (ops + [op])[..|ops|] == ops;
    var b, after := Run(ops), Run(ops + [op]);
    assert after == Step(b, op);
    StepAsTold(b, op);
    StepReferences(b, op);
    CountsInFull(after);
  }

  lemma CopyAssignedHeld<H>(b: Books<H>, h: H, other: H)
    requires BooksOk(b)
    ensures CopyAssigned(b, h, other).held == if other in b.held then b.held[h := b.held[other]] else b.held - {h}
    ensures CopyAssigned(b, h, other).unowned == b.unowned && CopyAssigned(b, h, other).handles == b.handles
  {
    if HoldSame(b, h, other) {
      assert other in b.held ==> b.held[h := b.held[other]] == b.held;
      assert other !in b.held ==> b.held - {h} == b.held;
    } else if other in b.held {
      assert h != other;
      assert (b.held - {h})[h := b.held[other]] == b.held[h := b.held[other]];
    }
  }

  lemma MoveAssignedHeld<H>(b: Books<H>, h: H, other: H)
    requires BooksOk(b)
    ensures MoveAssigned(b, h, other).held
            == if h == other then b.held
               else if other in b.held then (b.held - {other})[h := b.held[other]] else b.held - {h}
    ensures MoveAssigned(b, h, other).unowned == b.unowned && MoveAssigned(b, h, other).handles == b.handles
  {
    if h != other && other in b.held {
      assert (b.held - {h} - {other})[h := b.held[other]] == (b.held - {other})[h := b.held[other]];
    }
  }

  lemma DestroyedHeld<H>(b: Books<H>, h: H)
    requires BooksOk(b)
    ensures Destroyed(b, h).held == b.held - {h} && Destroyed(b, h).unowned == b.unowned
    ensures Destroyed(b, h).handles == b.handles - {h}
  {
    assert h !in b.held ==> b.held - {h} == b.held;
  }

  /** In every run a handle that owns a reference holds its entity, and the reference is nobody else's any more. */
  lemma {:induction false} OwnedIsHeld<H>(ops: seq<Op<H>>, h: H, r: Ref)
    requires h !in Run(ops).handles && r.eid != NULL_UID && r in Run(ops).unowned
    ensures var b, after := Run(ops), Run(ops + [Own(h, r)]);
            && h in after.handles && h in after.held && after.held[h] == r
            && (forall g :: g in b.held ==> g in after.held && after.held[g] == b.held[g])
            && after.unowned == b.unowned - multiset{r} && after.counts == b.counts
  {
    StepInFull(ops, Own(h, r));
    assert (ops + [Own(h, r)])[..|ops|] == ops;
    assert Run(ops + [Own(h, r)]) == Step(Run(ops), Own(h, r));
    assert h !in Run(ops).held;
  }

  /** Handles, what they hold, and what nobody owns after a call are as told above. */
  ghost predicate AsTold<H>(b: Books<H>, op: Op<H>, after: Books<H>) {
    && after.handles == HandlesAfter(b.handles, op)
    && after.held == HeldAfter(b.held, op)
    && after.unowned == UnownedAfter(b.unowned, op)
  }

  lemma {:induction false} ConstructedAsTold<H>(b: Books<H>, op: Op<H>)
    requires BooksOk(b) && Possible(b, op) && (op.Default? || op.Own? || op.Shared? || op.Copy? || op.Move?)
    ensures AsTold(b, op, Step(b, op))
  {
  }

  lemma {:induction false} AssignedAsTold<H>(b: Books<H>, op: Op<H>)
    requires BooksOk(b) && Possible(b, op) && (op.CopyAssign? || op.MoveAssign?)
    ensures AsTold(b, op, Step(b, op))
  {
    if op.CopyAssign? { CopyAssignedHeld(b, op.h, op.other); } else { MoveAssignedHeld(b, op.h, op.other); }
  }

  lemma {:induction false} StepAsTold<H>(b: Books<H>, op: Op<H>)
    requires BooksOk(b) && Possible(b, op)
    ensures AsTold(b, op, Step(b, op))
  {
    if op.CopyAssign? || op.MoveAssign? {
      AssignedAsTold(b, op);
    } else if op.Destroy? {
      DestroyedHeld(b, op.h);
    } else if !op.Create? && !op.TakeReference? {
      ConstructedAsTold(b, op);
    }
  }

  lemma HeldIsReferenced<H>(b: Books<H>, h: H)
    requires BooksOk(b)
    ensures h in b.held ==> b.held[h] in b.referenced
  {
    if h in b.held { HeldIsCounted(b.counts, b.held, b.unowned, h); }
  }

  lemma CopyKeepsReferenced<H>(b: Books<H>, h: H, other: H)
    requires BooksOk(b)
    ensures CopiedTo(b, h, other).created == b.created && CopiedTo(b, h, other).referenced == b.referenced
  {
    HeldIsReferenced(b, other);
    if other in b.held { assert b.referenced + {b.held[other]} == b.referenced; }
  }

  lemma CopyAssignKeepsReferenced<H>(b: Books<H>, h: H, other: H)
    requires BooksOk(b)
    ensures CopyAssigned(b, h, other).created == b.created && CopyAssigned(b, h, other).referenced == b.referenced
  {
    ReleasedOk(b, h);
    CopyKeepsReferenced(Released(b, h), h, other);
  }

  /** Only `Create` makes an entity, and only these two calls reference one that may not have been before. */
  lemma {:induction false} StepReferences<H>(b: Books<H>, op: Op<H>)
    requires BooksOk(b) && Possible(b, op)
    ensures Step(b, op).created == if op.Create? then b.created + {op.r} else b.created
    ensures Step(b, op).referenced == if op.TakeReference? || op.Shared? then b.referenced + {op.r} else b.referenced
  {
    if op.Copy? {
      CopyKeepsReferenced(WithHandle(b, op.h), op.h, op.other);
    } else if op.CopyAssign? {
      CopyAssignKeepsReferenced(b, op.h, op.other);
    }
  }

  lemma CountsInFull<H>(b: Books<H>)
    requires BooksOk(b)
    ensures forall r :: r in b.counts ==> b.counts[r] == |set h | h in b.held && b.held[h] == r| + b.unowned[r]
    ensures forall r :: r in b.created ==>
              (r in b.counts <==>
               r !in b.referenced || r in b.unowned || exists h :: h in b.held && b.held[h] == r)
  {
    forall r | r in b.counts ensures b.counts[r] == |set h | h in b.held && b.held[h] == r| + b.unowned[r] {
      assert Holders(b.held, r) == set h | h in b.held && b.held[h] == r;
    }
    forall r | r in b.created && r in b.counts && r in b.referenced && r !in b.unowned
      ensures exists h :: h in b.held && b.held[h] == r
    {
      assert |Holders(b.held, r)| > 0;
      var h :| h in Holders(b.held, r);
    }
  }

  /** Once no handle holds anything and nothing is unowned, exactly the never-referenced entities remain. */
  lemma RemainingExactly<H>(b: Books<H>)
    requires BooksOk(b) && b.held == map[] && b.unowned == multiset{}
    ensures b.counts.Keys == b.created - b.referenced
  {
    NoHandlesNoCounts<H>(b.counts);
    assert forall r :: r in b.created ==> (r in b.counts <==> r !in b.referenced);
  }

  /**
    Over any sequence of calls every handle's entity exists, and once all references are gone, exactly the
    entities that were never referenced remain: none is destroyed early, and none that was used leaks.
   */
  lemma {:induction false} NothingLeaks<H>(ops: seq<Op<H>>)
    ensures forall h :: h in Run(ops).held ==> Run(ops).held[h] in Run(ops).counts
    ensures Run(ops).held == map[] && Run(ops).unowned == multiset{} ==>
              Run(ops).counts.Keys == Run(ops).created - Run(ops).referenced
  {
    var b := Run(ops);
    if b.held == map[] && b.unowned == multiset{} { RemainingExactly(b); }
  }

  // ---------------------------------------------------------------------------------------------
  // The runtime and its handles
  // ---------------------------------------------------------------------------------------------

  class Runtime {
    var contexts: set<nat>  // the contexts that are valid
    var counts: map<Ref, nat>

    ghost var handles: set<Entity>
    ghost var held: map<Entity, Ref>
    ghost var unowned: multiset<Ref>
    ghost var created: set<Ref>
    ghost var referenced: set<Ref>

    ghost function Value(): Books<Entity>
      reads this
    {
      Books(counts, handles, held, unowned, created, referenced)
    }

    /** Writes the ghost part of new books, whose counts the runtime already has. */
    ghost method Enter(b: Books<Entity>)
      requires b.counts == counts
      modifies this`handles, this`held, this`unowned, this`created, this`referenced
      ensures Value() == b
    {
      handles, held, unowned, created, referenced := b.handles, b.held, b.unowned, b.created, b.referenced;
    }

    ghost predicate Valid()
      reads this, handles
    {
      && BooksOk(Value())
      && (forall r :: r in counts ==> r.context in contexts)
      && (forall h :: h in handles ==> HandleOk(h))
    }

    /** A handle shows what it holds, and a null uid if it holds nothing. */
    ghost predicate HandleOk(h: Entity)
      reads this, h
    {
      if h in held then held[h] == Ref(h.context, h.eid) && h.eid != NULL_UID else h.eid == NULL_UID
    }

    constructor (contexts: set<nat>)
      ensures Valid() && Value() == Run<Entity>([]) && this.contexts == contexts
    {
      this.contexts := contexts;
      counts, handles, held, unowned, created, referenced := map[], {}, map[], multiset{}, {}, {};
    }

    /** `GxfEntityRefCountInc`, which fails only for an invalid context. */
    method Increment(r: Ref) returns (ok: bool)
      requires r.context in contexts ==> r in counts
      modifies this`counts
      ensures ok <==> r.context in contexts
      ensures counts == if ok then old(counts)[r := old(counts)[r] + 1] else old(counts)
    {
      if r.context !in contexts { return false; }
      counts := counts[r := counts[r] + 1];
      ok := true;
    }

    /** `GxfEntityRefCountDec`, whose error nobody looks at. An entity whose count gets to zero is destroyed. */
    method Decrement(r: Ref)
      requires r.context in contexts ==> r in counts
      modifies this`counts
      ensures counts == if r.context in contexts then Decremented(old(counts), r) else old(counts)
      ensures r.context !in contexts || old(counts)[r] == 0 ==> counts == old(counts)
      ensures r.context in contexts && old(counts)[r] == 1 ==> counts == old(counts) - {r}
      ensures r.context in contexts && old(counts)[r] > 1 ==> counts == old(counts)[r := old(counts)[r] - 1]
    {
      if r.context !in contexts { return; }
      if counts[r] == 0 { return; }
      if counts[r] == 1 { counts := counts - {r}; } else { counts := counts[r := counts[r] - 1]; }
    }

    /** A new entity, which nobody refers to yet. */
    method CreateEntity(r: Ref)
      requires Valid() && r !in created && r.eid != NULL_UID && r.context in contexts
      modifies this
      ensures Valid() && Value() == Created(old(Value()), r) && contexts == old(contexts)
    {
      CreatedOk(Value(), r);
      counts := counts[r := 0];
      created := created + {r};
    }

    /** A reference taken without a handle, for `Entity::Own` to adopt. */
    method TakeUnowned(r: Ref)
      requires Valid() && r in counts
      modifies this
      ensures Valid() && Value() == Referenced(old(Value()), r) && contexts == old(contexts)
    {
      ReferencedOk(Value(), r);
      ghost var after := Referenced(Value(), r);
      var ok := Increment(r);
      Enter(after);
    }
  }

  datatype Error = ContextInvalid

  class Entity {
    var context: nat
    var eid: nat

    constructor ()
      ensures context == 0 && eid == NULL_UID
    {
      context, eid := 0, NULL_UID;
    }

    constructor Of(r: Ref)
      ensures context == r.context && eid == r.eid
    {
      context, eid := r.context, r.eid;
    }

    ghost predicate LivesIn(rt: Runtime)
      reads rt, rt.handles
    {
      rt.Valid() && this in rt.handles
    }

    /** A handle that adopts a reference taken before, or a null handle for a null uid. */
    static method Own(rt: Runtime, r: Ref) returns (e: Entity)
      requires rt.Valid() && (r.eid == NULL_UID || r in rt.unowned)
      modifies rt
      ensures e.LivesIn(rt) && fresh(e) && rt.contexts == old(rt.contexts)
      ensures rt.Value() == Adopted(WithHandle(old(rt.Value()), e), e, r)
      ensures e.eid == r.eid && e.context == r.context && rt.counts == old(rt.counts)
      ensures r.eid != NULL_UID ==> rt.held == old(rt.held)[e := r] && rt.unowned == old(rt.unowned) - multiset{r}
      ensures r.eid == NULL_UID ==> rt.held == old(rt.held) && rt.unowned == old(rt.unowned)
    {
      e := new Entity.Of(r);
      ghost var after := Adopted(WithHandle(rt.Value(), e), e, r);
      AdoptedOk(WithHandle(rt.Value(), e), e, r);
      rt.Enter(after);
    }

    /**
      A handle that takes a reference of its own. Without a valid context the count cannot be raised; the
      handle is then given up, and the decrement of its destruction fails just the same.
     */
    static method Shared(rt: Runtime, r: Ref) returns (e: Result<Entity, Error>)
      requires rt.Valid() && (r.context in rt.contexts ==> r in rt.counts)
      modifies rt
      ensures rt.Valid() && rt.contexts == old(rt.contexts) && (e.Ok? <==> r.context in rt.contexts)
      ensures e.Ok? ==> e.value.LivesIn(rt) && fresh(e.value)
                        && rt.Value() == Took(WithHandle(old(rt.Value()), e.value), e.value, r)
      ensures e.Ok? ==> e.value.context == r.context && e.value.eid == r.eid
                        && r in old(rt.counts) && rt.counts == old(rt.counts)[r := old(rt.counts)[r] + 1]
                        && rt.held == old(rt.held)[e.value := r] && rt.unowned == old(rt.unowned)
      ensures e.Err? ==> rt.Value() == old(rt.Value())
    {
      var h := new Entity.Of(r);
      var ok := rt.Increment(r);
      if !ok {
        if h.eid != NULL_UID { rt.Decrement(r); }
        return Err(ContextInvalid);
      }
      h.Register(rt, old(rt.Value()), r);
      e := Ok(h);
    }

    /** The count has just been raised for this new handle. */
    ghost method Register(rt: Runtime, before: Books<Entity>, r: Ref)
      requires BooksOk(before) && this !in before.handles && r in before.counts && r == Ref(context, eid)
      requires rt.Value() == before.(counts := before.counts[r := before.counts[r] + 1])
      requires forall q :: q in rt.counts ==> q.context in rt.contexts
      requires forall h :: h in rt.handles ==> rt.HandleOk(h)
      modifies rt
      ensures LivesIn(rt) && rt.contexts == old(rt.contexts)
      ensures rt.Value() == Took(WithHandle(before, this), this, r)
    {
      TookOk(WithHandle(before, this), this, r);
      rt.Enter(Took(WithHandle(before, this), this, r));
    }

    /** The copy constructor. */
    static method Copy(rt: Runtime, other: Entity) returns (e: Entity)
      requires other.LivesIn(rt)
      modifies rt
      ensures e.LivesIn(rt) && fresh(e) && rt.contexts == old(rt.contexts)
      ensures rt.Value() == CopiedTo(WithHandle(old(rt.Value()), e), e, other)
      ensures e.context == other.context && e.eid == other.eid
      ensures rt.held == if other.eid == NULL_UID then old(rt.held)
                         else old(rt.held)[e := Ref(other.context, other.eid)]
    {
      e := new Entity();
      rt.Enter(WithHandle(rt.Value(), e));
      e.CopyFields(rt, other);
    }

    /** Copies the fields into an empty handle and takes a reference unless they are null. */
    method CopyFields(rt: Runtime, other: Entity)
      requires LivesIn(rt) && other.LivesIn(rt) && other != this && eid == NULL_UID
      modifies this, rt
      ensures rt.Valid() && rt.contexts == old(rt.contexts) && rt.handles == old(rt.handles)
      ensures eid == old(other.eid) && context == old(other.context) && unchanged(other)
      ensures old(other.eid) == NULL_UID <==> other !in old(rt.held)
      ensures other in old(rt.held) ==> old(rt.held)[other] == Ref(old(other.context), old(other.eid))
      ensures rt.Value() == CopiedTo(old(rt.Value()), this, other)
    {
      assert rt.HandleOk(this) && rt.HandleOk(other);
      context, eid := other.context, other.eid;
      if eid != NULL_UID { Take(rt); }
    }

    /** Takes a reference for the fields just set. */
    method Take(rt: Runtime)
      requires BooksOk(rt.Value()) && this in rt.handles && this !in rt.held && Ref(context, eid) in rt.counts
      requires forall r :: r in rt.counts ==> r.context in rt.contexts
      requires forall h :: h in rt.handles && h != this ==> rt.HandleOk(h)
      modifies rt
      ensures rt.Valid() && rt.contexts == old(rt.contexts) && rt.handles == old(rt.handles)
      ensures rt.Value() == Took(old(rt.Value()), this, Ref(context, eid))
    {
      ghost var before := rt.Value();
      TookOk(before, this, Ref(context, eid));
      var ok := rt.Increment(Ref(context, eid));
      rt.Enter(Took(before, this, Ref(context, eid)));
    }

    /** The move constructor: no count changes, and the handle moved from is null. */
    static method Move(rt: Runtime, other: Entity) returns (e: Entity)
      requires other.LivesIn(rt)
      modifies rt, other
      ensures e.LivesIn(rt) && fresh(e) && rt.contexts == old(rt.contexts) && other.eid == NULL_UID
      ensures e.context == old(other.context) && e.eid == old(other.eid) && rt.counts == old(rt.counts)
      ensures rt.held == if old(other.eid) == NULL_UID then old(rt.held)
                         else (old(rt.held) - {other})[e := Ref(old(other.context), old(other.eid))]
      ensures rt.Value() == Moved(WithHandle(old(rt.Value()), e), other, e)
    {
      e := new Entity();
      rt.Enter(WithHandle(rt.Value(), e));
      e.MoveFields(rt, other);
    }

    method MoveFields(rt: Runtime, other: Entity)
      requires LivesIn(rt) && other.LivesIn(rt) && other != this && eid == NULL_UID
      modifies this, other, rt
      ensures rt.Valid() && rt.contexts == old(rt.contexts) && rt.handles == old(rt.handles)
      ensures eid == old(other.eid) && context == old(other.context) && other.eid == NULL_UID
      ensures old(other.eid) == NULL_UID <==> other !in old(rt.held)
      ensures other in old(rt.held) ==> old(rt.held)[other] == Ref(old(other.context), old(other.eid))
      ensures rt.Value() == Moved(old(rt.Value()), other, this)
    {
      assert rt.HandleOk(this) && rt.HandleOk(other);
      ghost var after := Moved(rt.Value(), other, this);
      MovedOk(rt.Value(), other, this);
      context, eid := other.context, other.eid;
      other.context, other.eid := 0, NULL_UID;
      rt.Enter(after);
      forall h | h in rt.handles ensures rt.HandleOk(h) {
        assert old(rt.HandleOk(h));
        assert h != this && h != other ==> (h in after.held <==> h in old(rt.held));
      }
    }

    /** Gives up the reference held. */
    method Release(rt: Runtime)
      requires LivesIn(rt) && eid != NULL_UID
      modifies this`eid, rt
      ensures rt.Valid() && rt.contexts == old(rt.contexts) && rt.handles == old(rt.handles) && eid == NULL_UID
      ensures this in old(rt.held) && rt.Value() == Released(old(rt.Value()), this)
      ensures rt.held == old(rt.held) - {this} && context == old(context)
    {
      assert rt.HandleOk(this);
      ReleasedOk(rt.Value(), this);
      ghost var after := Released(rt.Value(), this);
      rt.Decrement(Ref(context, eid));
      rt.Enter(after);
      eid := NULL_UID;
    }

    /** Leaves an empty handle as it is. */
    method ReleaseIfHeld(rt: Runtime)
      requires LivesIn(rt)
      modifies this`eid, rt
      ensures rt.Valid() && rt.contexts == old(rt.contexts) && rt.handles == old(rt.handles) && eid == NULL_UID
      ensures rt.Value() == Released(old(rt.Value()), this) && rt.held == old(rt.held) - {this}
    {
      assert rt.HandleOk(this);
      if eid != NULL_UID { Release(rt); }
    }

    /** Copy assignment: releases what this handle held, then shares what the other holds. */
    method CopyAssign(rt: Runtime, other: Entity)
      requires LivesIn(rt) && other.LivesIn(rt)
      modifies this, rt
      ensures rt.Valid() && rt.contexts == old(rt.contexts)
      ensures eid == old(other.eid) && context == old(other.context) && (other != this ==> unchanged(other))
      ensures rt.held == if old(other.eid) == NULL_UID then old(rt.held) - {this}
                         else old(rt.held)[this := Ref(old(other.context), old(other.eid))]
      ensures rt.Value() == CopyAssigned(old(rt.Value()), this, other)
    {
      assert rt.HandleOk(this) && rt.HandleOk(other);
      CopyAssignedHeld(rt.Value(), this, other);
      if eid == other.eid && context == other.context { return; }
      ReleaseIfHeld(rt);
      CopyFields(rt, other);
    }

    /** Move assignment: releases what this handle held, then takes over what the other holds. */
    method MoveAssign(rt: Runtime, other: Entity)
      requires LivesIn(rt) && other.LivesIn(rt)
      modifies this, other, rt
      ensures rt.Valid() && rt.contexts == old(rt.contexts)
      ensures eid == old(other.eid) && context == old(other.context)
      ensures other == this ==> unchanged(this) && unchanged(rt)
      ensures other != this ==>
                && other.eid == NULL_UID
                && rt.held == if old(other.eid) == NULL_UID then old(rt.held) - {this}
                              else (old(rt.held) - {other})[this := Ref(old(other.context), old(other.eid))]
      ensures rt.Value() == MoveAssigned(old(rt.Value()), this, other)
    {
      if other == this { return; }
      ReleaseIfHeld(rt);
      MoveFields(rt, other);
    }

    /** The destructor. */
    method Destroy(rt: Runtime)
      requires LivesIn(rt)
      modifies this`eid, rt
      ensures rt.Valid() && rt.contexts == old(rt.contexts)
      ensures rt.Value() == Destroyed(old(rt.Value()), this)
      ensures rt.held == old(rt.held) - {this} && rt.handles == old(rt.handles) - {this}
    {
      DestroyedOk(rt.Value(), this);
      ReleaseIfHeld(rt);
      rt.Enter(rt.Value().(handles := rt.handles - {this}));
    }
  }
}
