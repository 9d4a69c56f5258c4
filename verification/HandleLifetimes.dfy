/** A process using container handles in any order: starts, adoptions, moves, keep, stop, remove
    and destruction. Each step is what the operation's contract in Containers says it does.
    The main result is a law of conservation: every container a start created, and every
    adoption, puts one handle or one removal request into the world, and it stays one. */
module HandleLifetimes {
  import opened Wrappers
  import opened Containers

  /** Operations name handles by position; one that names no handle, or adopts a container
      that does not exist yet, does nothing. A start created `created` containers and returned
      the last of them, or nothing. */
  datatype Op =
    | Start(created: nat, returned: bool, removeOnDrop: bool, hasHooks: bool)
    | Adopt(id: Id, removeOnDrop: bool)
    | MoveConstruct(source: nat)
    | MoveAssign(target: nat, source: nat)
    | Keep(h: nat, keep: bool)
    | Stop(h: nat)
    | Remove(h: nat)
    | Destroy(h: nat)

  datatype Process = Process(
    handles: seq<Handle>,     // the handles alive
    nextId: nat,              // containers the library has created
    removals: multiset<Id>,
    fired: multiset<Id>,
    adopted: multiset<Id>,    // adoptions made
    spared: multiset<Id>)     // drops of handles that were persistent

  const START := Process([], 0, multiset{}, multiset{}, multiset{}, multiset{})

  predicate Exists(p: Process, id: Id) {
    id.Foreign? || id.n < p.nextId
  }

  /** Handle `i` drops, and `now` takes its place. */
  function DropAt(p: Process, i: nat, now: Handle): Process
    requires i < |p.handles|
  {
    var h := p.handles[i];
    p.(handles := p.handles[i := now],
       removals := p.removals + Of(h.id, DropRemoves(h)),
       fired := p.fired + Of(h.id, DropRemoves(h) && MayFire(h)),
       spared := p.spared + Of(h.id, !h.dropped && !h.removeOnDrop))
  }

  function Erased(p: Process, i: nat): Process
    requires i < |p.handles|
  {
    p.(handles := p.handles[..i] + p.handles[i + 1..])
  }

  /** A start returned the last container it created; the others are removed. */
  function Returned(p: Process, created: nat, removeOnDrop: bool, hasHooks: bool): Process
    requires 0 < created
  {
    var last := p.nextId + created - 1;
    p.(handles := p.handles + [Handle(Some(Ours(last)), false, removeOnDrop, hasHooks, false)],
       nextId := last + 1, removals := p.removals + Ids(p.nextId, last))
  }

  function Step(p: Process, op: Op): Process {
    match op
    case Start(created, returned, removeOnDrop, hasHooks) =>
      if !returned then p.(nextId := p.nextId + created, removals := p.removals + Ids(p.nextId, p.nextId + created))
      else if created == 0 then p
      else Returned(p, created, removeOnDrop, hasHooks)
    case Adopt(id, removeOnDrop) =>
      if !Exists(p, id) then p
      else p.(handles := p.handles + [Handle(Some(id), false, removeOnDrop, false, false)],
              adopted := p.adopted + multiset{id})
    case MoveConstruct(s) =>
      if |p.handles| <= s then p
      else p.(handles := p.handles[s := MovedFrom(p.handles[s])] + [p.handles[s]])
    case MoveAssign(t, s) =>
      if |p.handles| <= s || |p.handles| <= t || s == t then p
      else
        var q := DropAt(p, t, p.handles[s]);
        q.(handles := q.handles[s := MovedFrom(p.handles[s])])
    case Keep(h, keep) =>
      if |p.handles| <= h then p else p.(handles := p.handles[h := p.handles[h].(removeOnDrop := !keep)])
    case Stop(h) =>
      if |p.handles| <= h then p
      else p.(handles := p.handles[h := p.handles[h].(stoppingFired := true)],
              fired := p.fired + Of(p.handles[h].id, MayFire(p.handles[h])))
    case Remove(h) =>
      if |p.handles| <= h then p else DropAt(p, h, Dropped(p.handles[h]))
    case Destroy(h) =>
      if |p.handles| <= h then p else Erased(DropAt(p, h, Dropped(p.handles[h])), h)
  }

  function Steps(p: Process, ops: seq<Op>): Process
    decreases |ops|
  {
    if ops == [] then p else Steps(Step(p, ops[0]), ops[1..])
  }

  lemma {:induction false} StepsSnoc(p: Process, ops: seq<Op>, op: Op)
    ensures Steps(p, ops + [op]) == Step(Steps(p, ops), op)
    decreases |ops|
  {
    if ops == [] {
      assert Steps(Step(p, op), []) == Step(p, op);
    } else {
      assert (ops + [op])[1..] == ops[1..] + [op];
      StepsSnoc(Step(p, ops[0]), ops[1..], op);
    }
  }

  // ----- what handles hold, counted

  /** A handle may hold two rights to a container: to own it, and to run its hooks. */
  datatype Right = Own | Fire

  predicate Holds(h: Handle, right: Right, id: Id) {
    h.id == Some(id) && if right.Own? then !h.dropped else MayFire(h)
  }

  function One(held: bool): nat {
    if held then 1 else 0
  }

  /** How many handles hold the right. */
  function Count(handles: seq<Handle>, right: Right, id: Id): nat {
    if handles == [] then 0
    else Count(handles[..|handles| - 1], right, id) + One(Holds(handles[|handles| - 1], right, id))
  }

  lemma CountSnoc(handles: seq<Handle>, h: Handle, right: Right, id: Id)
    ensures Count(handles + [h], right, id) == Count(handles, right, id) + One(Holds(h, right, id))
  {
    assert (handles + [h])[..|handles|] == handles;
  }

  lemma {:induction false} CountUpdate(handles: seq<Handle>, i: nat, h: Handle, right: Right, id: Id)
    requires i < |handles|
    ensures Count(handles[i := h], right, id) ==
            Count(handles, right, id) - One(Holds(handles[i], right, id)) + One(Holds(h, right, id))
    decreases |handles|
  {
    var n := |handles| - 1;
    if i == n {
      assert handles[i := h][..n] == handles[..n];
    } else {
      assert handles[i := h][..n] == handles[..n][i := h];
      CountUpdate(handles[..n], i, h, right, id);
    }
  }

  lemma {:induction false} CountErase(handles: seq<Handle>, i: nat, right: Right, id: Id)
    requires i < |handles|
    ensures Count(handles[..i] + handles[i + 1..], right, id) ==
            Count(handles, right, id) - One(Holds(handles[i], right, id))
    decreases |handles|
  {
    var n := |handles| - 1;
    if i == n {
      assert handles[..i] + handles[i + 1..] == handles[..n];
    } else {
      var front := handles[..n];
      assert handles[..i] + handles[i + 1..] == (front[..i] + front[i + 1..]) + [handles[n]];
      CountSnoc(front[..i] + front[i + 1..], handles[n], right, id);
      CountErase(front, i, right, id);
    }
  }

  function Owners(p: Process, id: Id): nat {
    Count(p.handles, Own, id)
  }

  function Firers(p: Process, id: Id): nat {
    Count(p.handles, Fire, id)
  }

  /** Removal requests made, given up on purpose, and still to be made. */
  function Removals(p: Process, id: Id): nat {
    p.removals[id] + p.spared[id] + Owners(p, id)
  }

  /** Runs of the stopping hooks made and still to be made. */
  function Firings(p: Process, id: Id): nat {
    p.fired[id] + Firers(p, id)
  }

  /** Containers of this id that the library has created: one or none. */
  function Created(p: Process, id: Id): nat {
    One(id.Ours? && id.n < p.nextId)
  }

  // ----- each operation, accounted for

  /** A drop turns the right of the dropped handle into a removal or gives it up. */
  lemma DropAccounts(p: Process, i: nat, now: Handle, id: Id)
    requires i < |p.handles|
    ensures var q := DropAt(p, i, now);
      && Removals(q, id) == Removals(p, id) + One(Holds(now, Own, id))
      && Owners(q, id) == Owners(p, id) - One(Holds(p.handles[i], Own, id)) + One(Holds(now, Own, id))
      && Firings(q, id) <= Firings(p, id) + One(Holds(now, Fire, id))
      && (now == Dropped(p.handles[i]) ==> Firings(q, id) == Firings(p, id))
  {
    CountUpdate(p.handles, i, now, Own, id);
    CountUpdate(p.handles, i, now, Fire, id);
  }

  lemma MoveConstructAccounts(p: Process, s: nat, id: Id)
    requires s < |p.handles|
    ensures var q := Step(p, MoveConstruct(s)); Owners(q, id) == Owners(p, id) && Firers(q, id) == Firers(p, id)
  {
    var h := p.handles[s];
    CountUpdate(p.handles, s, MovedFrom(h), Own, id);
    CountUpdate(p.handles, s, MovedFrom(h), Fire, id);
    CountSnoc(p.handles[s := MovedFrom(h)], h, Own, id);
    CountSnoc(p.handles[s := MovedFrom(h)], h, Fire, id);
  }

  lemma MoveAssignAccounts(p: Process, t: nat, s: nat, id: Id)
    requires s < |p.handles| && t < |p.handles| && s != t
    ensures var q := Step(p, MoveAssign(t, s));
      && Removals(q, id) == Removals(p, id) && Firings(q, id) <= Firings(p, id)
      && Owners(q, id) == Owners(p, id) - One(Holds(p.handles[t], Own, id))
  {
    var h := p.handles[s];
    var dropped := DropAt(p, t, h);
    DropAccounts(p, t, h, id);
    CountUpdate(dropped.handles, s, MovedFrom(h), Own, id);
    CountUpdate(dropped.handles, s, MovedFrom(h), Fire, id);
    hide Count;
  }

  lemma DestroyAccounts(p: Process, i: nat, id: Id)
    requires i < |p.handles|
    ensures var q := Step(p, Destroy(i));
      && Removals(q, id) == Removals(p, id) && Firings(q, id) <= Firings(p, id)
      && Owners(q, id) == Owners(p, id) - One(Holds(p.handles[i], Own, id))
  {
    var now := Dropped(p.handles[i]);
    var dropped := DropAt(p, i, now);
    DropAccounts(p, i, now, id);
    CountErase(dropped.handles, i, Own, id);
    CountErase(dropped.handles, i, Fire, id);
    hide Count;
  }

  lemma StopAccounts(p: Process, i: nat, id: Id)
    requires i < |p.handles|
    ensures var q := Step(p, Stop(i)); Owners(q, id) == Owners(p, id) && Firings(q, id) == Firings(p, id)
  {
    CountUpdate(p.handles, i, p.handles[i].(stoppingFired := true), Own, id);
    CountUpdate(p.handles, i, p.handles[i].(stoppingFired := true), Fire, id);
  }

  lemma KeepAccounts(p: Process, i: nat, keep: bool, id: Id)
    requires i < |p.handles|
    ensures var q := Step(p, Keep(i, keep)); Owners(q, id) == Owners(p, id) && Firers(q, id) == Firers(p, id)
  {
    CountUpdate(p.handles, i, p.handles[i].(removeOnDrop := !keep), Own, id);
    CountUpdate(p.handles, i, p.handles[i].(removeOnDrop := !keep), Fire, id);
  }

  lemma NewHandle(handles: seq<Handle>, owned: Id, removeOnDrop: bool, hasHooks: bool, id: Id)
    ensures var now := handles + [Handle(Some(owned), false, removeOnDrop, hasHooks, false)];
      && Count(now, Own, id) == Count(handles, Own, id) + One(id == owned)
      && Count(now, Fire, id) == Count(handles, Fire, id) + One(id == owned && hasHooks)
  {
    var h := Handle(Some(owned), false, removeOnDrop, hasHooks, false);
    CountSnoc(handles, h, Own, id);
    CountSnoc(handles, h, Fire, id);
  }

  lemma ReturnAccounts(p: Process, created: nat, removeOnDrop: bool, hasHooks: bool, id: Id)
    requires 0 < created
    ensures var (q, last) := (Returned(p, created, removeOnDrop, hasHooks), Ours(p.nextId + created - 1));
      && Removals(q, id) == Removals(p, id) + Created(q, id) - Created(p, id)
      && Firings(q, id) <= Firings(p, id) + Created(q, id) - Created(p, id)
      && Owners(q, id) == Owners(p, id) + One(id == last)
  {
    IdsOnce(p.nextId, p.nextId + created - 1, id);
    NewHandle(p.handles, Ours(p.nextId + created - 1), removeOnDrop, hasHooks, id);
    hide Count, Ids, Holds;
  }

  lemma StartAccounts(p: Process, created: nat, returned: bool, removeOnDrop: bool, hasHooks: bool, id: Id)
    ensures var op := Start(created, returned, removeOnDrop, hasHooks);
      var q := Step(p, op);
      && Removals(q, id) == Removals(p, id) + Created(q, id) - Created(p, id)
      && Firings(q, id) <= Firings(p, id) + Created(q, id) - Created(p, id)
      && Owners(q, id) == Owners(p, id) + One(Grants(p, op, id))
  {
    hide Count, Ids;
    if returned && 0 < created {
      ReturnAccounts(p, created, removeOnDrop, hasHooks, id);
    } else {
      IdsOnce(p.nextId, p.nextId + created, id);
    }
  }

  lemma AdoptAccounts(p: Process, adopted: Id, removeOnDrop: bool, id: Id)
    ensures var op := Adopt(adopted, removeOnDrop);
      var q := Step(p, op);
      Owners(q, id) == Owners(p, id) + One(Grants(p, op, id)) && Firers(q, id) == Firers(p, id)
  {
    NewHandle(p.handles, adopted, removeOnDrop, false, id);
    hide Count;
  }

  /** The operation makes a handle that owns the container. */
  predicate Grants(p: Process, op: Op, id: Id) {
    match op
    case Start(created, returned, _, _) => returned && 0 < created && id == Ours(p.nextId + created - 1)
    case Adopt(adopted, _) => adopted == id && Exists(p, id)
    case _ => false
  }

  // ----- every operation and every run

  /** Every created container and every adoption is accounted for: by a removal request, by a
      persistent handle that let go of it, or by a handle that still owns it. Hooks run at most
      once per created container, and not while they are still due. */
  ghost predicate Inv(p: Process) {
    && (forall id :: Removals(p, id) == Created(p, id) + p.adopted[id])
    && (forall id :: Firings(p, id) <= Created(p, id))
    && (forall id <- p.adopted :: Exists(p, id))
  }

  /** Each operation keeps the balance; only a start or an adoption adds an owner. */
  lemma StepBalances(p: Process, op: Op, id: Id)
    ensures var q := Step(p, op);
      && Removals(q, id) - Removals(p, id) == Created(q, id) - Created(p, id) + q.adopted[id] - p.adopted[id]
      && Firings(q, id) - Firings(p, id) <= Created(q, id) - Created(p, id)
      && (if op.Start? || op.Adopt? then Owners(q, id) == Owners(p, id) + One(Grants(p, op, id))
          else Owners(q, id) <= Owners(p, id))
  {
    hide Count;
    if Step(p, op) != p {
      match op
      case Start(created, returned, removeOnDrop, hasHooks) =>
        StartAccounts(p, created, returned, removeOnDrop, hasHooks, id);
      case Adopt(adopted, removeOnDrop) => AdoptAccounts(p, adopted, removeOnDrop, id);
      case MoveConstruct(s) => MoveConstructAccounts(p, s, id);
      case MoveAssign(t, s) => MoveAssignAccounts(p, t, s, id);
      case Keep(h, keep) => KeepAccounts(p, h, keep, id);
      case Stop(h) => StopAccounts(p, h, id);
      case Remove(h) => DropAccounts(p, h, Dropped(p.handles[h]), id);
      case Destroy(h) => DestroyAccounts(p, h, id);
    }
  }

  lemma StepInv(p: Process, op: Op)
    requires Inv(p)
    ensures Inv(Step(p, op))
  {
    var q := Step(p, op);
    forall id
      ensures Removals(q, id) == Created(q, id) + q.adopted[id] && Firings(q, id) <= Created(q, id)
      ensures id in q.adopted ==> Exists(q, id)
    {
      StepBalances(p, op, id);
      assert Removals(p, id) == Created(p, id) + p.adopted[id] && Firings(p, id) <= Created(p, id);
      hide Removals, Firings, Owners;
    }
  }

  lemma {:induction false} StepsInv(p: Process, ops: seq<Op>)
    requires Inv(p)
    ensures Inv(Steps(p, ops))
    decreases |ops|
  {
    if ops == [] {
    } else {
      StepInv(p, ops[0]);
      StepsInv(Step(p, ops[0]), ops[1..]);
    }
  }

  predicate Adopts(ops: seq<Op>, id: Id) {
    exists op <- ops :: op.Adopt? && op.id == id
  }

  lemma {:induction false} NotAdopted(p: Process, ops: seq<Op>, id: Id)
    requires !Adopts(ops, id)
    ensures Steps(p, ops).adopted[id] == p.adopted[id]
    decreases |ops|
  {
    if ops == [] {
    } else {
      assert ops[0] in ops && forall op <- ops[1..] :: op in ops;
      NotAdopted(Step(p, ops[0]), ops[1..], id);
    }
  }

  /** A request made is not taken back. */
  lemma RequestsStand(p: Process, op: Op, id: Id)
    ensures p.removals[id] <= Step(p, op).removals[id] && p.nextId <= Step(p, op).nextId
  {
  }

  lemma {:induction false} RemovalsGrow(p: Process, ops: seq<Op>, id: Id)
    ensures p.removals[id] <= Steps(p, ops).removals[id] && p.nextId <= Steps(p, ops).nextId
    decreases |ops|
  {
    if ops == [] {
    } else {
      RequestsStand(p, ops[0], id);
      RemovalsGrow(Step(p, ops[0]), ops[1..], id);
    }
  }

  /** The law of conservation, for every run and every container, adopted or not: requests for
      its removal, persistent handles that dropped it and handles that own it make up its
      creation by the library, if any, and its adoptions. Its hooks ran at most once, and not
      at all while a handle may still run them. */
  lemma EveryContainerAccounted(ops: seq<Op>, id: Id)
    ensures var p := Steps(START, ops);
      && p.removals[id] + p.spared[id] + Owners(p, id) == Created(p, id) + p.adopted[id]
      && p.fired[id] + Firers(p, id) <= Created(p, id)
  {
    StepsInv(START, ops);
    assert Removals(Steps(START, ops), id) == Created(Steps(START, ops), id) + Steps(START, ops).adopted[id];
    assert Firings(Steps(START, ops), id) <= Created(Steps(START, ops), id);
  }

  // ----- a container nobody adopts

  /** At most one handle, as positions, owns the container. */
  ghost predicate SoleOwner(handles: seq<Handle>, id: Id) {
    forall i, j :: 0 <= i < j < |handles| ==> !(Holds(handles[i], Own, id) && Holds(handles[j], Own, id))
  }

  ghost predicate Owned(handles: seq<Handle>, id: Id) {
    exists i :: 0 <= i < |handles| && Holds(handles[i], Own, id)
  }

  /** The counts are counts of positions. */
  lemma {:induction false} OwnersCounted(handles: seq<Handle>, id: Id)
    ensures Owned(handles, id) <==> 0 < Count(handles, Own, id)
    ensures SoleOwner(handles, id) <==> Count(handles, Own, id) <= 1
    decreases |handles|
  {
    if handles == [] {
    } else {
      var n := |handles| - 1;
      var front := handles[..n];
      OwnersCounted(front, id);
      hide Holds;
      assert forall i :: 0 <= i < n ==> front[i] == handles[i];
      if Owned(front, id) {
        var i :| 0 <= i < n && Holds(front[i], Own, id);
        assert Holds(handles[i], Own, id);
      }
    }
  }

  /** Whatever a process did: a container that it created and never adopted has at most one
      owner, at most one removal request and at most one run of its hooks; with no handle left,
      it has been removed exactly once, unless one handle dropped it while persistent. */
  lemma AtMostOnce(ops: seq<Op>, id: Id)
    requires !Adopts(ops, id) && Exists(Steps(START, ops), id)
    ensures var p := Steps(START, ops);
      && SoleOwner(p.handles, id)
      && p.removals[id] <= 1 && p.fired[id] <= 1 && p.spared[id] <= 1
      && (id.Ours? && p.handles == [] ==> p.removals[id] == if id in p.spared then 0 else 1)
      && (id.Foreign? ==> p.removals[id] == 0)
  {
    var p := Steps(START, ops);
    EveryContainerAccounted(ops, id);
    NotAdopted(START, ops, id);
    OwnersCounted(p.handles, id);
  }

  /** The start created the container, and did not return it. */
  predicate LeftBehind(p: Process, op: Op, id: Id) {
    && op.Start? && (op.returned ==> 0 < op.created)
    && id.Ours? && p.nextId <= id.n < p.nextId + op.created - One(op.returned)
  }

  lemma LeftBehindRemoved(p: Process, op: Op, id: Id)
    requires LeftBehind(p, op, id)
    ensures var q := Step(p, op); 1 <= q.removals[id] && Created(q, id) == 1 && q.adopted == p.adopted && !Exists(p, id)
  {
    IdsOnce(p.nextId, p.nextId + op.created - One(op.returned), id);
    hide Ids;
  }

  /** A container that a start created but did not return has been asked to be removed once,
      and stays at that whatever is done with other containers. */
  lemma UnreturnedOnce(before: seq<Op>, start: Op, after: seq<Op>, id: Id)
    requires LeftBehind(Steps(START, before), start, id) && !Adopts(after, id)
    ensures var r := Steps(Step(Steps(START, before), start), after);
      r.removals[id] == 1 && r.spared[id] == 0 && !Owned(r.handles, id)
  {
    var p := Steps(START, before);
    var q := Step(p, start);
    var r := Steps(q, after);
    LeftBehindRemoved(p, start, id);
    StepsInv(START, before);
    StepInv(p, start);
    StepsInv(q, after);
    NotAdopted(q, after, id);
    RemovalsGrow(q, after, id);
    OwnersCounted(r.handles, id);
    hide Step, Steps, Count, LeftBehind;
    assert p.adopted[id] == 0;
    assert Removals(r, id) == Created(r, id) + r.adopted[id];
  }

  // ----- adoption

  /** The operation adopts a container that a handle owns. */
  ghost predicate AdoptsOwned(p: Process, op: Op, id: Id) {
    op.Adopt? && op.id == id && Exists(p, id) && Owned(p.handles, id)
  }

  /** Adopting an owned container is the one step that gives it a second owner. */
  lemma SecondOwnerExactly(p: Process, op: Op, id: Id)
    requires Inv(p) && SoleOwner(p.handles, id)
    ensures SoleOwner(Step(p, op).handles, id) <==> !AdoptsOwned(p, op, id)
  {
    OwnersCounted(p.handles, id);
    OwnersCounted(Step(p, op).handles, id);
    StepBalances(p, op, id);
    if op.Start? && Grants(p, op, id) {
      assert Removals(p, id) == Created(p, id) + p.adopted[id];
    }
    hide Count, Step;
  }

  /** After `k` steps, at most one handle owns the container. */
  ghost predicate SoleAfter(ops: seq<Op>, id: Id, k: nat)
    requires k <= |ops|
  {
    SoleOwner(Steps(START, ops[..k]).handles, id)
  }

  ghost predicate AdoptsOwnedAt(ops: seq<Op>, id: Id, k: nat)
    requires k < |ops|
  {
    AdoptsOwned(Steps(START, ops[..k]), ops[k], id)
  }

  lemma SoleAtFirst(ops: seq<Op>, id: Id)
    ensures SoleAfter(ops, id, 0)
  {
    assert ops[..0] == [];
  }

  lemma PrefixStep(ops: seq<Op>, k: nat, id: Id)
    requires k < |ops| && SoleAfter(ops, id, k)
    ensures SoleAfter(ops, id, k + 1) <==> !AdoptsOwnedAt(ops, id, k)
  {
    StepsInv(START, ops[..k]);
    assert ops[..k + 1] == ops[..k] + [ops[k]];
    StepsSnoc(START, ops[..k], ops[k]);
    SecondOwnerExactly(Steps(START, ops[..k]), ops[k], id);
  }

  lemma {:induction false} SoleUpToExactly(ops: seq<Op>, id: Id, n: nat)
    requires n <= |ops|
    ensures (forall k :: 0 <= k <= n ==> SoleAfter(ops, id, k))
       <==> (forall k :: 0 <= k < n ==> !AdoptsOwnedAt(ops, id, k))
    decreases n
  {
    hide SoleAfter, AdoptsOwnedAt;
    if n == 0 {
      SoleAtFirst(ops, id);
    } else {
      SoleUpToExactly(ops, id, n - 1);
      if SoleAfter(ops, id, n - 1) {
        PrefixStep(ops, n - 1, id);
      }
    }
  }

  /** So in a run a container has at most one owner at every moment exactly when no step
      adopts it while it is owned. */
  lemma SoleThroughoutExactly(ops: seq<Op>, id: Id)
    ensures (forall k :: 0 <= k <= |ops| ==> SoleAfter(ops, id, k))
       <==> (forall k :: 0 <= k < |ops| ==> !AdoptsOwnedAt(ops, id, k))
  {
    SoleUpToExactly(ops, id, |ops|);
  }

  /** What a second owner leads to: when both handles are destroyed, each asks for the removal
      exactly if it removes on drop, so there are two requests exactly if both do. */
  lemma BothOwnersDestroyed(p: Process, i: nat, removeOnDrop: bool)
    requires i < |p.handles| && !p.handles[i].dropped && p.handles[i].id.Some? && Exists(p, p.handles[i].id.value)
    ensures var id := p.handles[i].id.value;
      var both := Step(p, Adopt(id, removeOnDrop));
      var after := Step(Step(both, Destroy(|p.handles|)), Destroy(i));
      after.removals[id] == p.removals[id] + One(removeOnDrop) + One(p.handles[i].removeOnDrop)
  {
    var both := Step(p, Adopt(p.handles[i].id.value, removeOnDrop));
    var once := Step(both, Destroy(|p.handles|));
    assert once.handles == p.handles;
  }
}
