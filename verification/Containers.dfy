/** Who removes a container, and when: the start orchestration with its retries, and the
    move-only handle it returns, over a log of what the daemon was asked. */
module Containers {
  import opened Wrappers

  /** A container's id: of one this library created, in order, or of any other. */
  datatype Id = Ours(n: nat) | Foreign(n: nat)

  /** The next `n` calls succeed. */
  predicate AllOk(script: seq<bool>, n: nat) {
    forall k :: 0 <= k < n && k < |script| ==> script[k]
  }

  /** What is left of the script after `n` calls. */
  function Later(script: seq<bool>, n: nat): seq<bool> {
    if |script| <= n then [] else script[n..]
  }

  lemma NextCall(script: seq<bool>, n: nat)
    ensures AllOk(script, n + 1) <==> AllOk(script, n) && AllOk(Later(script, n), 1)
    ensures Later(Later(script, n), 1) == Later(script, n + 1)
  {
    if AllOk(script, n) && AllOk(Later(script, n), 1) && n < |script| {
      assert Later(script, n)[0] == script[n];
    }
    if AllOk(script, n + 1) && n < |script| {
      assert Later(script, n)[0] == script[n];
    }
  }

  /** The daemon: every call may fail, and each successful create has a new id. */
  class Daemon {
    var script: seq<bool>               // whether each call succeeds; all do after its end
    var nextId: nat

    ghost var createCalls: nat
    ghost var removals: multiset<Id>   // removal requests, by id
    ghost var fired: multiset<Id>      // runs of a stopping-hook list, by id

    constructor (script: seq<bool>)
      ensures nextId == 0 && createCalls == 0 && removals == multiset{} && fired == multiset{}
    {
      this.script, nextId, createCalls, removals, fired := script, 0, 0, multiset{}, multiset{};
    }

    /** Any call whose only effect that matters here is whether it throws. */
    method Call() returns (ok: bool)
      modifies `script
      ensures ok == AllOk(old(script), 1) && script == Later(old(script), 1)
      ensures ok <==> old(script) == [] || old(script)[0]
    {
      if script == [] {
        return true;
      }
      ok := script[0];
      script := script[1..];
    }

    method Create() returns (id: Option<Id>)
      modifies `script, `nextId, `createCalls
      ensures createCalls == old(createCalls) + 1
      ensures id.Some? == AllOk(old(script), 1) && script == Later(old(script), 1)
      ensures id == None ==> nextId == old(nextId)
      ensures id.Some? ==> id.value == Ours(old(nextId)) && nextId == old(nextId) + 1
    {
      createCalls := createCalls + 1;
      var ok := Call();
      if !ok {
        return None;
      }
      nextId := nextId + 1;
      return Some(Ours(nextId - 1));
    }

    /** A removal request; its failure is swallowed by every caller. */
    method Remove(id: Id)
      modifies `script, `removals
      ensures removals == old(removals) + multiset{id}
    {
      removals := removals + multiset{id};
      var _ := Call();
    }

    method RunHooks(id: Id)
      modifies `script, `fired
      ensures fired == old(fired) + multiset{id}
    {
      fired := fired + multiset{id};
      var _ := Call();
    }
  }

  // ----- the handle

  /** A handle's fields as a value. */
  datatype Handle = Handle(id: Option<Id>, dropped: bool, removeOnDrop: bool, hasHooks: bool, stoppingFired: bool)

  /** A moved-from handle has no id and no hooks, and is dropped. */
  function MovedFrom(h: Handle): Handle {
    h.(id := None, dropped := true, hasHooks := false, stoppingFired := true)
  }

  /** Dropping asks for a removal unless the handle dropped before or is persistent. */
  predicate DropRemoves(h: Handle) {
    !h.dropped && h.removeOnDrop
  }

  /** The stopping hooks have yet to run. */
  predicate MayFire(h: Handle) {
    h.hasHooks && !h.stoppingFired
  }

  function Dropped(h: Handle): Handle {
    h.(dropped := true, stoppingFired := h.stoppingFired || DropRemoves(h))
  }

  /** An optional id as a multiset: what a request for it adds to a log. */
  function Of(id: Option<Id>, counted: bool): multiset<Id> {
    if counted && id.Some? then multiset{id.value} else multiset{}
  }

  class Container {
    var id: Option<Id>
    var dropped: bool
    var removeOnDrop: bool
    var hasHooks: bool           // the list of stopping hooks is not empty
    var stoppingFired: bool

    function Value(): Handle
      reads this
    {
      Handle(id, dropped, removeOnDrop, hasHooks, stoppingFired)
    }

    /** A handle to a started container, or an adopted one, which has no hooks. */
    constructor (id: Id, removeOnDrop: bool, hasHooks: bool)
      ensures Value() == Handle(Some(id), false, removeOnDrop, hasHooks, false)
    {
      this.id, dropped, this.removeOnDrop := Some(id), false, removeOnDrop;
      this.hasHooks, stoppingFired := hasHooks, false;
    }

    /** The move constructor: takes everything over and leaves the source owning nothing. */
    constructor MoveFrom(other: Container)
      modifies other
      ensures Value() == old(other.Value()) && other.Value() == MovedFrom(old(other.Value()))
    {
      id, dropped, removeOnDrop := other.id, other.dropped, other.removeOnDrop;
      hasHooks, stoppingFired := other.hasHooks, other.stoppingFired;
      new;
      other.id, other.dropped, other.hasHooks, other.stoppingFired := None, true, false, true;
    }

    method FireStopping(d: Daemon)
      modifies `stoppingFired, d`script, d`fired
      ensures Value() == old(Value()).(stoppingFired := true)
      ensures d.fired == old(d.fired) + Of(id, MayFire(old(Value())))
      ensures d.fired == old(d.fired) +
        if id.Some? && hasHooks && !old(stoppingFired) then multiset{id.value} else multiset{}
    {
      if stoppingFired {
        return;
      }
      stoppingFired := true;
      if id.Some? && hasHooks {
        d.RunHooks(id.value);
      }
    }

    method Drop(d: Daemon)
      modifies `dropped, `stoppingFired, d`script, d`fired, d`removals
      ensures Value() == Dropped(old(Value()))
      ensures d.removals == old(d.removals) + Of(id, DropRemoves(old(Value())))
      ensures d.fired == old(d.fired) + Of(id, DropRemoves(old(Value())) && MayFire(old(Value())))
      ensures dropped && (id.Some? && !old(dropped) && removeOnDrop ==>
        && d.removals == old(d.removals) + multiset{id.value}
        && d.fired == old(d.fired) + if hasHooks && !old(stoppingFired) then multiset{id.value} else multiset{})
      ensures old(dropped) || !removeOnDrop ==> d.removals == old(d.removals) && d.fired == old(d.fired)
    {
      if dropped {
        return;
      }
      dropped := true;
      if !removeOnDrop {
        return;
      }
      FireStopping(d);
      if id.Some? {
        d.Remove(id.value);
      }
    }

    method Stop(d: Daemon)
      modifies `stoppingFired, d`script, d`fired
      ensures Value() == old(Value()).(stoppingFired := true)
      ensures d.fired == old(d.fired) + Of(id, MayFire(old(Value())))
      ensures d.fired == old(d.fired) +
        if id.Some? && hasHooks && !old(stoppingFired) then multiset{id.value} else multiset{}
    {
      FireStopping(d);
      var _ := d.Call();
    }

    method Keep(keep: bool)
      modifies `removeOnDrop
      ensures Value() == old(Value()).(removeOnDrop := !keep)
    {
      removeOnDrop := !keep;
    }

    /** Move assignment: drops what this handle owned, then takes over; onto itself it does
        nothing. */
    method AssignFrom(other: Container, d: Daemon)
      modifies this, other, d`script, d`fired, d`removals
      ensures this == other ==> Value() == old(Value()) && d.removals == old(d.removals) && d.fired == old(d.fired)
      ensures this != other ==> Value() == old(other.Value()) && other.Value() == MovedFrom(old(other.Value()))
      ensures this != other ==> d.removals == old(d.removals) + Of(old(id), DropRemoves(old(Value())))
      ensures this != other ==>
        d.fired == old(d.fired) + Of(old(id), DropRemoves(old(Value())) && MayFire(old(Value())))
    {
      if this != other {
        Drop(d);
        id, dropped, removeOnDrop := other.id, other.dropped, other.removeOnDrop;
        hasHooks, stoppingFired := other.hasHooks, other.stoppingFired;
        other.id, other.dropped, other.hasHooks, other.stoppingFired := None, true, false, true;
      }
    }
  }

  // ----- the start orchestration

  /** Create, then `steps` calls that may each fail (hooks, copy, start, readiness); a failure
      removes the partial container. */
  method CreateStartWait(d: Daemon, steps: nat, removeOnDrop: bool, hasHooks: bool) returns (c: Option<Container>)
    modifies d`script, d`nextId, d`createCalls, d`removals
    ensures d.createCalls == old(d.createCalls) + 1
    ensures c.Some? <==> AllOk(old(d.script), steps + 1)
    ensures d.nextId == old(d.nextId) + if AllOk(old(d.script), 1) then 1 else 0
    ensures c.Some? ==> fresh(c.value) && d.nextId == old(d.nextId) + 1
    ensures c.Some? ==> c.value.Value() == Handle(Some(Ours(old(d.nextId))), false, removeOnDrop, hasHooks, false)
    ensures d.removals == old(d.removals) + Ids(old(d.nextId), if c.Some? then old(d.nextId) else d.nextId)
  {
    var id := d.Create();
    if id.None? {
      return None;
    }
    for i := 0 to steps
      invariant AllOk(old(d.script), i + 1) && d.script == Later(old(d.script), i + 1)
      invariant d.nextId == old(d.nextId) + 1 && d.createCalls == old(d.createCalls) + 1
      invariant d.removals == old(d.removals)
    {
      NextCall(old(d.script), i + 1);
      var ok := d.Call();
      if !ok {
        d.Remove(id.value);
        return None;
      }
    }
    var handle := new Container(id.value, removeOnDrop, hasHooks);
    return Some(handle);
  }

  /** Each id from `first` up to `end`, once. */
  function Ids(first: nat, end: nat): multiset<Id> {
    if end <= first then multiset{} else Ids(first, end - 1) + multiset{Ours(end - 1)}
  }

  lemma {:induction false} IdsOnce(first: nat, end: nat, id: Id)
    ensures Ids(first, end)[id] == if id.Ours? && first <= id.n < end then 1 else 0
    decreases end
  {
    if end <= first {
    } else {
      IdsOnce(first, end - 1, id);
    }
  }

  lemma {:induction false} IdsJoin(first: nat, middle: nat, end: nat)
    requires first <= middle <= end
    ensures Ids(first, end) == Ids(first, middle) + Ids(middle, end)
    decreases end
  {
    if end == middle {
    } else {
      IdsJoin(first, middle, end - 1);
    }
  }

  /** The least number that is at least 1 and at least what was asked for. */
  function Attempts(startupAttempts: int): (n: nat)
    ensures 1 <= n && startupAttempts <= n && (n == 1 || n == startupAttempts)
  {
    if startupAttempts < 1 then 1 else startupAttempts
  }

  /** Retries on failure. Never more creates than attempts; every container created on the way
      and not returned has exactly one removal request, the returned one none. */
  method Run(d: Daemon, startupAttempts: int, steps: nat, removeOnDrop: bool, hasHooks: bool)
    returns (c: Option<Container>)
    modifies d`script, d`nextId, d`createCalls, d`removals
    ensures d.createCalls <= old(d.createCalls) + Attempts(startupAttempts)
    ensures c.None? ==> d.createCalls == old(d.createCalls) + Attempts(startupAttempts)
    ensures AllOk(old(d.script), steps + 1) ==> c.Some? && d.createCalls == old(d.createCalls) + 1
    ensures old(d.nextId) <= d.nextId
    ensures c.Some? ==> && fresh(c.value) && old(d.nextId) < d.nextId
                        && c.value.Value() == Handle(Some(Ours(d.nextId - 1)), false, removeOnDrop, hasHooks, false)
    ensures d.removals == old(d.removals) + Ids(old(d.nextId), if c.Some? then d.nextId - 1 else d.nextId)
  {
    hide Ids, AllOk;
    var attempts := Attempts(startupAttempts);
    var i := 0;
    ghost var first := d.nextId;
    NoIds(first);
    while true
      invariant 0 <= i < attempts && d.createCalls == old(d.createCalls) + i && first <= d.nextId
      invariant d.removals == old(d.removals) + Ids(first, d.nextId)
      invariant if i == 0 then d.script == old(d.script) else !AllOk(old(d.script), steps + 1)
      decreases attempts - i
    {
      ghost var before := d.nextId;
      c := CreateStartWait(d, steps, removeOnDrop, hasHooks);
      IdsJoin(first, before, if c.Some? then before else d.nextId);
      if c.Some? {
        return c;
      }
      if i + 1 >= attempts {
        return None;
      }
      i := i + 1;
    }
  }

  lemma NoIds(first: nat)
    ensures Ids(first, first) == multiset{}
  {
  }
}
