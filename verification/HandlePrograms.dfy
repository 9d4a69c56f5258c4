/** Programs that hold real handles: any list of commands, carried out on Container objects
    against a daemon, goes through exactly the states of HandleLifetimes. */
module HandlePrograms {
  import opened Containers
  import opened HandleLifetimes

  type HandleOp = op: Op | !op.Start? witness Adopt(Foreign(0), false)

  /** What a program does; how a start ends is up to the daemon. */
  datatype Command = RunNew(startupAttempts: int, steps: nat, removeOnDrop: bool, hasHooks: bool) | Use(op: HandleOp)

  /** How often a command may ask the daemon to create. */
  function CreatesAllowed(c: Command): nat {
    if c.RunNew? then Attempts(c.startupAttempts) else 0
  }

  function CreateBudget(commands: seq<Command>): nat {
    if commands == [] then 0 else CreateBudget(commands[..|commands| - 1]) + CreatesAllowed(commands[|commands| - 1])
  }

  /** Distinct objects whose fields, with the daemon's log, are the process's state. */
  ghost predicate Represents(handles: seq<Container>, d: Daemon, p: Process)
    reads set i | 0 <= i < |handles| :: handles[i], d
  {
    && |handles| == |p.handles|
    && (forall i, j :: 0 <= i < j < |handles| ==> handles[i] != handles[j])
    && (forall i :: 0 <= i < |handles| ==> handles[i].Value() == p.handles[i])
    && d.nextId == p.nextId && d.removals == p.removals && d.fired == p.fired
  }

  method RunHandle(handles: seq<Container>, d: Daemon, ghost p: Process,
                   startupAttempts: int, steps: nat, removeOnDrop: bool, hasHooks: bool)
    returns (now: seq<Container>, ghost op: Op)
    requires Represents(handles, d, p)
    modifies d
    ensures op.Start? && Represents(now, d, Step(p, op))
    ensures d.createCalls <= old(d.createCalls) + Attempts(startupAttempts)
    ensures forall k :: 0 <= k < |now| ==> now[k] in handles || fresh(now[k])
  {
    hide Ids;
    ghost var first := d.nextId;
    var c := Run(d, startupAttempts, steps, removeOnDrop, hasHooks);
    op := Start(d.nextId - first, c.Some?, removeOnDrop, hasHooks);
    if c.None? {
      return handles, op;
    }
    now := handles + [c.value];
  }

  method AdoptHandle(handles: seq<Container>, d: Daemon, ghost p: Process, id: Id, removeOnDrop: bool)
    returns (now: seq<Container>)
    requires Represents(handles, d, p)
    ensures Represents(now, d, Step(p, Adopt(id, removeOnDrop)))
    ensures forall k :: 0 <= k < |now| ==> now[k] in handles || fresh(now[k])
  {
    if id.Ours? && d.nextId <= id.n {
      return handles;
    }
    var c := new Container(id, removeOnDrop, false);
    now := handles + [c];
  }

  method MoveHandle(handles: seq<Container>, d: Daemon, ghost p: Process, source: nat) returns (now: seq<Container>)
    requires Represents(handles, d, p)
    modifies handles
    ensures Represents(now, d, Step(p, MoveConstruct(source)))
    ensures forall k :: 0 <= k < |now| ==> now[k] in handles || fresh(now[k])
  {
    if |handles| <= source {
      return handles;
    }
    var c := new Container.MoveFrom(handles[source]);
    now := handles + [c];
  }

  method AssignHandle(handles: seq<Container>, d: Daemon, ghost p: Process, target: nat, source: nat)
    requires Represents(handles, d, p)
    modifies handles, d
    ensures d.createCalls == old(d.createCalls)
    ensures Represents(handles, d, Step(p, MoveAssign(target, source)))
  {
    if source < |handles| && target < |handles| {
      handles[target].AssignFrom(handles[source], d);
    }
  }

  method KeepHandle(handles: seq<Container>, d: Daemon, ghost p: Process, h: nat, keep: bool)
    requires Represents(handles, d, p)
    modifies handles
    ensures Represents(handles, d, Step(p, HandleLifetimes.Keep(h, keep)))
  {
    if h < |handles| {
      handles[h].Keep(keep);
    }
  }

  method StopHandle(handles: seq<Container>, d: Daemon, ghost p: Process, h: nat)
    requires Represents(handles, d, p)
    modifies handles, d
    ensures d.createCalls == old(d.createCalls)
    ensures Represents(handles, d, Step(p, HandleLifetimes.Stop(h)))
  {
    hide Of;
    if h < |handles| {
      handles[h].Stop(d);
    }
  }

  method RemoveHandle(handles: seq<Container>, d: Daemon, ghost p: Process, h: nat)
    requires Represents(handles, d, p)
    modifies handles, d
    ensures d.createCalls == old(d.createCalls)
    ensures Represents(handles, d, Step(p, HandleLifetimes.Remove(h)))
  {
    hide Of, DropRemoves;
    if h < |handles| {
      handles[h].Drop(d);
    }
  }

  /** Leaving one object out of the list. */
  lemma Forgotten(handles: seq<Container>, d: Daemon, p: Process, h: nat)
    requires Represents(handles, d, p) && h < |handles|
    ensures Represents(handles[..h] + handles[h + 1..], d, Erased(p, h))
  {
    var rest, values := handles[..h] + handles[h + 1..], p.handles[..h] + p.handles[h + 1..];
    assert forall k :: 0 <= k < |rest| ==>
      rest[k] == handles[if k < h then k else k + 1] && values[k] == p.handles[if k < h then k else k + 1];
  }

  /** The destructor drops, and the object is gone. */
  method DestroyHandle(handles: seq<Container>, d: Daemon, ghost p: Process, h: nat) returns (now: seq<Container>)
    requires Represents(handles, d, p)
    modifies handles, d
    ensures d.createCalls == old(d.createCalls)
    ensures Represents(now, d, Step(p, Destroy(h)))
    ensures forall k :: 0 <= k < |now| ==> now[k] in handles
  {
    if |handles| <= h {
      return handles;
    }
    ghost var q := DropAt(p, h, Dropped(p.handles[h]));
    assert Step(p, HandleLifetimes.Remove(h)) == q && Step(p, Destroy(h)) == Erased(q, h) && |q.handles| == |p.handles|;
    hide Step, DropAt, Represents;
    RemoveHandle(handles, d, p, h);
    Forgotten(handles, d, q, h);
    now := handles[..h] + handles[h + 1..];
  }

  method Obey(handles: seq<Container>, d: Daemon, ghost p: Process, command: Command)
    returns (now: seq<Container>, ghost op: Op)
    requires Represents(handles, d, p)
    modifies handles, d
    ensures Represents(now, d, Step(p, op))
    ensures d.createCalls <= old(d.createCalls) + CreatesAllowed(command)
    ensures if command.Use? then op == command.op else op.Start?
    ensures forall k :: 0 <= k < |now| ==> now[k] in handles || fresh(now[k])
  {
    hide Step;
    now := handles;
    match command
    case RunNew(startupAttempts, steps, removeOnDrop, hasHooks) =>
      now, op := RunHandle(handles, d, p, startupAttempts, steps, removeOnDrop, hasHooks);
    case Use(used) =>
      op := used;
      match used
      case Adopt(id, removeOnDrop) => now := AdoptHandle(handles, d, p, id, removeOnDrop);
      case MoveConstruct(source) => now := MoveHandle(handles, d, p, source);
      case MoveAssign(target, source) => AssignHandle(handles, d, p, target, source);
      case Destroy(h) => now := DestroyHandle(handles, d, p, h);
      case Keep(h, keep) => KeepHandle(handles, d, p, h, keep);
      case Stop(h) => StopHandle(handles, d, p, h);
      case Remove(h) => RemoveHandle(handles, d, p, h);
  }

  /** Adoptions of a container among the commands. */
  predicate Adopting(commands: seq<Command>, id: Id) {
    exists c <- commands :: c.Use? && c.op.Adopt? && c.op.id == id
  }

  /** A whole program: its handles, and every request the daemon saw, are those of a run of
      HandleLifetimes, so what holds of every run holds of it. */
  method Execute(commands: seq<Command>, script: seq<bool>)
    returns (handles: seq<Container>, d: Daemon, ghost ops: seq<Op>)
    ensures |ops| == |commands|
    ensures forall k :: 0 <= k < |ops| ==> if commands[k].Use? then ops[k] == commands[k].op else ops[k].Start?
    ensures Represents(handles, d, Steps(START, ops))
    ensures d.createCalls <= CreateBudget(commands)
    ensures forall id :: d.fired[id] <= One(id.Ours? && id.n < d.nextId)
    ensures forall id :: d.removals[id] + Steps(START, ops).spared[id] + Owners(Steps(START, ops), id)
                      == One(id.Ours? && id.n < d.nextId) + Steps(START, ops).adopted[id]
    ensures forall id :: !Adopting(commands, id) ==> d.removals[id] <= One(id.Ours? && id.n < d.nextId)
  {
    hide Step;
    d := new Daemon(script);
    handles := [];
    ops := [];
    ghost var p := START;
    for i := 0 to |commands|
      invariant |ops| == i && p == Steps(START, ops)
      invariant forall k :: 0 <= k < i ==> if commands[k].Use? then ops[k] == commands[k].op else ops[k].Start?
      invariant Represents(handles, d, p)
      invariant d.createCalls <= CreateBudget(commands[..i])
      invariant fresh(d) && forall k :: 0 <= k < |handles| ==> fresh(handles[k])
    {
      ghost var op;
      assert commands[..i + 1][..i] == commands[..i];
      handles, op := Obey(handles, d, p, commands[i]);
      StepsSnoc(START, ops, op);
      p := Step(p, op);
      ops := ops + [op];
    }
    assert commands[..|commands|] == commands;
    forall id
      ensures d.fired[id] <= One(id.Ours? && id.n < d.nextId)
      ensures d.removals[id] + p.spared[id] + Owners(p, id) == One(id.Ours? && id.n < d.nextId) + p.adopted[id]
      ensures !Adopting(commands, id) ==> d.removals[id] <= One(id.Ours? && id.n < d.nextId)
    {
      ProgramBounds(commands, ops, id);
      hide Owners;
    }
  }

  lemma ProgramBounds(commands: seq<Command>, ops: seq<Op>, id: Id)
    requires |ops| == |commands|
    requires forall k :: 0 <= k < |ops| ==> if commands[k].Use? then ops[k] == commands[k].op else ops[k].Start?
    ensures var p := Steps(START, ops);
      && p.fired[id] <= One(id.Ours? && id.n < p.nextId)
      && p.removals[id] + p.spared[id] + Owners(p, id) == One(id.Ours? && id.n < p.nextId) + p.adopted[id]
      && (!Adopting(commands, id) ==> p.removals[id] <= One(id.Ours? && id.n < p.nextId))
  {
    EveryContainerAccounted(ops, id);
    if !Adopting(commands, id) {
      NoAdoption(commands, ops, id);
      NotAdopted(START, ops, id);
    }
    hide Owners, Firers;
  }

  lemma NoAdoption(commands: seq<Command>, ops: seq<Op>, id: Id)
    requires |ops| == |commands| && !Adopting(commands, id)
    requires forall k :: 0 <= k < |ops| ==> if commands[k].Use? then ops[k] == commands[k].op else ops[k].Start?
    ensures !Adopts(ops, id)
  {
    forall op <- ops ensures !(op.Adopt? && op.id == id) {
      var k :| 0 <= k < |ops| && ops[k] == op;
      assert commands[k] in commands;
    }
  }
}
