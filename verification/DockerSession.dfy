/** The keep-alive session of the Docker client: which connection each request goes out on,
    what is kept for the next one, and what every history of requests looks like. */
module DockerSession {
  import opened Wrappers

  /** How one exchange on one connection ends: with the whole response (the daemon may ask to
      close, or end the body by closing), with a deadline, or with any other failure. */
  datatype Outcome = Complete(daemonKeepsAlive: bool, untilEof: bool) | TimedOut | Failed

  datatype Answer = Response | TimeoutError | OtherError

  /** One request sent on connection `conn` while serving the client's call number `call`. */
  datatype Attempt = Attempt(call: nat, conn: nat, verb: string, keepAlive: bool, outcome: Outcome)

  /** The response arrived whole and neither side asked to close. */
  predicate Reusable(a: Attempt) {
    a.keepAlive && a.outcome.Complete? && a.outcome.daemonKeepsAlive && !a.outcome.untilEof
  }

  function AnswerTo(outcome: Outcome): Answer {
    match outcome
    case Complete(_, _) => Response
    case TimedOut => TimeoutError
    case Failed => OtherError
  }

  /** Everything sent so far, the connections ever opened (numbered from 0) and those gone. */
  datatype Traffic = Traffic(log: seq<Attempt>, calls: nat, made: nat, closed: set<nat>, cached: Option<nat>)

  const SILENCE := Traffic([], 0, 0, {}, None)

  ghost predicate Used(log: seq<Attempt>, before: nat, conn: nat) {
    exists k :: 0 <= k < before && k < |log| && log[k].conn == conn
  }

  /** What a second attempt in one call may follow: a GET that failed, other than by timing
      out, on a connection that had served before. */
  ghost predicate StaleGet(log: seq<Attempt>, i: nat) {
    i < |log| && log[i].verb == "GET" && log[i].outcome == Failed && Used(log, i, log[i].conn)
  }

  /** No connection is lost: it is gone, or it is the cached one. */
  ghost predicate Accounted(t: Traffic) {
    && (forall a :: a in t.log ==> a.call < t.calls && a.conn < t.made && (a.keepAlive ==> a.verb == "GET"))
    && (forall c: nat :: c < t.made ==> (c in t.closed <==> t.cached != Some(c)))
    && (forall c :: c in t.closed ==> c < t.made)
    && (t.cached.Some? ==> t.cached.value < t.made && Used(t.log, |t.log|, t.cached.value))
  }

  /** A connection carries another request, or is kept for one, only after whole responses
      with keep-alive agreed. */
  ghost predicate ReusedInOrder(t: Traffic) {
    && (forall i, j :: 0 <= i < j < |t.log| && t.log[i].conn == t.log[j].conn ==>
      Reusable(t.log[i]) && t.log[j].verb == "GET")
    && (forall i :: 0 <= i < |t.log| && t.cached == Some(t.log[i].conn) ==> Reusable(t.log[i]))
  }

  ghost predicate RetriedInOrder(t: Traffic) {
    forall i, j :: 0 <= i < j < |t.log| && t.log[i].call == t.log[j].call ==>
      j == i + 1 && StaleGet(t.log, i) && t.log[j].verb == "GET" && !Used(t.log, j, t.log[j].conn)
  }

  ghost predicate Orderly(t: Traffic) {
    Accounted(t) && ReusedInOrder(t) && RetriedInOrder(t)
  }

  /** The first attempt of a new call, on the cached connection. */
  function OnCached(t: Traffic, outcome: Outcome): Traffic
    requires t.cached.Some?
  {
    var a := Attempt(t.calls, t.cached.value, "GET", true, outcome);
    Traffic(t.log + [a], t.calls + 1, t.made, if Reusable(a) then t.closed else t.closed + {t.cached.value},
            if Reusable(a) then t.cached else None)
  }

  /** An attempt on a fresh connection, for call number `call`. */
  function OnFresh(t: Traffic, call: nat, verb: string, reuse: bool, outcome: Outcome): Traffic {
    var a := Attempt(call, t.made, verb, reuse, outcome);
    Traffic(t.log + [a], t.calls, t.made + 1, if reuse && Reusable(a) then t.closed else t.closed + {t.made},
            if reuse && Reusable(a) then Some(t.made) else t.cached)
  }

  /** The cached connection goes. */
  function Dropped(t: Traffic): Traffic {
    if t.cached.None? then t else t.(closed := t.closed + {t.cached.value}, cached := None)
  }

  lemma UsedLater(log: seq<Attempt>, a: Attempt, before: nat, conn: nat)
    requires before <= |log|
    ensures Used(log + [a], before, conn) <==> Used(log, before, conn)
  {
    assert forall k :: 0 <= k < before ==> (log + [a])[k] == log[k];
    if Used(log, before, conn) {
      var k :| 0 <= k < before && log[k].conn == conn;
      assert (log + [a])[k].conn == conn;
    }
    if Used(log + [a], before, conn) {
      var k :| 0 <= k < before && (log + [a])[k].conn == conn;
      assert log[k].conn == conn;
    }
  }

  /** One more attempt keeps earlier retries what they were. */
  lemma RetriesKept(t: Traffic, a: Attempt, next: Traffic)
    requires RetriedInOrder(t) && next.log == t.log + [a]
    requires forall i :: 0 <= i < |t.log| && t.log[i].call == a.call ==>
      i == |t.log| - 1 && StaleGet(t.log, i) && a.verb == "GET" && !Used(t.log, |t.log|, a.conn)
    ensures RetriedInOrder(next)
  {
    forall i, j | 0 <= i < j < |next.log| && next.log[i].call == next.log[j].call
      ensures j == i + 1 && StaleGet(next.log, i) && next.log[j].verb == "GET" && !Used(next.log, j, next.log[j].conn)
    {
      assert next.log[i] == t.log[i];
      assert StaleGet(t.log, i);
      UsedLater(t.log, a, i, t.log[i].conn);
      UsedLater(t.log, a, j, next.log[j].conn);
    }
  }

  lemma CachedKeepsOrder(t: Traffic, outcome: Outcome)
    requires Orderly(t) && t.cached.Some?
    ensures Orderly(OnCached(t, outcome))
    ensures outcome == Failed ==> StaleGet(OnCached(t, outcome).log, |t.log|) && OnCached(t, outcome).cached == None
  {
    var next := OnCached(t, outcome);
    var a := next.log[|t.log|];
    RetriesKept(t, a, next);
    UsedLater(t.log, a, |t.log|, a.conn);
    assert Used(next.log, |next.log|, a.conn);
  }

  lemma FreshKeepsOrder(t: Traffic, call: nat, verb: string, reuse: bool, outcome: Outcome)
    requires Orderly(t) && call < t.calls && (reuse ==> verb == "GET" && t.cached == None)
    requires forall i :: 0 <= i < |t.log| && t.log[i].call == call ==>
      i == |t.log| - 1 && StaleGet(t.log, i) && verb == "GET"
    ensures Orderly(OnFresh(t, call, verb, reuse, outcome))
  {
    hide RetriedInOrder, StaleGet;
    var next := OnFresh(t, call, verb, reuse, outcome);
    var a := next.log[|t.log|];
    assert !Used(t.log, |t.log|, a.conn) by {
      assert forall k :: 0 <= k < |t.log| ==> t.log[k] in t.log;
    }
    RetriesKept(t, a, next);
    if t.cached.Some? {
      UsedLater(t.log, a, |t.log|, t.cached.value);
      assert Used(next.log, |t.log|, t.cached.value);
    }
    assert forall i :: 0 <= i < |t.log| ==> next.log[i] == t.log[i] && t.log[i] in t.log;
    assert Used(next.log, |next.log|, a.conn);
  }

  lemma NewCallKeepsOrder(t: Traffic)
    requires Orderly(t)
    ensures Orderly(t.(calls := t.calls + 1))
    ensures forall i :: 0 <= i < |t.log| ==> t.log[i].call != t.calls
  {
    assert forall i :: 0 <= i < |t.log| ==> t.log[i] in t.log;
  }

  lemma DroppedKeepsOrder(t: Traffic)
    requires Orderly(t)
    ensures Orderly(Dropped(t))
  {
  }

  // ----- what an orderly history says

  /** A request that may have side effects is sent once: no other attempt serves its call, and
      no other request shares its connection. */
  lemma SideEffectsOnce(t: Traffic, i: nat, j: nat)
    requires Orderly(t) && i < |t.log| && j < |t.log| && i != j && t.log[i].verb != "GET"
    ensures t.log[i].conn != t.log[j].conn && t.log[i].call != t.log[j].call
    ensures t.cached != Some(t.log[i].conn)
  {
    assert t.log[i] in t.log && t.log[j] in t.log;
  }

  /** A timed-out exchange is the last on its connection and the last of its call. */
  lemma TimeoutIsFinal(t: Traffic, i: nat, j: nat)
    requires Orderly(t) && i < j < |t.log| && t.log[i].outcome == TimedOut
    ensures t.log[i].conn != t.log[j].conn && t.log[i].call != t.log[j].call
    ensures t.cached != Some(t.log[i].conn)
  {
  }

  /** A connection is used again, or kept for that, only after a GET whose whole response arrived
      with keep-alive agreed, and only by another GET. */
  lemma ReusedAfterWholeResponse(t: Traffic, i: nat, j: nat)
    requires Orderly(t) && i < |t.log|
    ensures i < j < |t.log| && t.log[i].conn == t.log[j].conn ==> t.log[j].verb == "GET"
    ensures (i < j < |t.log| && t.log[i].conn == t.log[j].conn) || t.cached == Some(t.log[i].conn) ==>
      t.log[i].outcome == Complete(true, false) && t.log[i].keepAlive && t.log[i].verb == "GET"
  {
    assert t.log[i] in t.log;
  }

  /** A call is retried at once, on a connection never used before, and only a GET that failed,
      other than by timing out, on a connection that had served before. */
  lemma RetriedOnlyWhenStale(t: Traffic, i: nat, j: nat)
    requires Orderly(t) && i < j < |t.log| && t.log[i].call == t.log[j].call
    ensures j == i + 1 && t.log[i].verb == "GET" && t.log[j].verb == "GET" && t.log[i].outcome == Failed
    ensures forall k :: 0 <= k < j ==> t.log[k].conn != t.log[j].conn
    ensures exists k :: 0 <= k < i && t.log[k].conn == t.log[i].conn
  {
  }

  /** A call makes at most two attempts. */
  lemma AtMostTwoAttempts(t: Traffic, i: nat, j: nat, k: nat)
    requires Orderly(t) && i < j < k < |t.log|
    ensures !(t.log[i].call == t.log[j].call == t.log[k].call)
  {
  }

  // ----- the client

  class Client {
    var sessionEnabled: bool
    var sessionTransport: Option<nat>
    ghost var traffic: Traffic

    ghost predicate Valid()
      reads this
    {
      Orderly(traffic) && traffic.cached == sessionTransport && (sessionTransport.Some? ==> sessionEnabled)
    }

    constructor ()
      ensures Valid() && !sessionEnabled && traffic == SILENCE
    {
      sessionEnabled, sessionTransport, traffic := false, None, SILENCE;
    }

    /** The fast path: an attempt on the session's connection. No answer means that the
        connection was stale and the caller goes on to a fresh one. */
    method TryCached(outcome: Outcome) returns (answer: Option<Answer>)
      requires Valid() && sessionTransport.Some?
      modifies `sessionTransport, `traffic
      ensures Valid() && traffic == OnCached(old(traffic), outcome)
      ensures answer == if outcome == Failed then None else Some(AnswerTo(outcome))
      ensures outcome == Failed ==> sessionTransport == None && StaleGet(traffic.log, |old(traffic).log|)
    {
      CachedKeepsOrder(traffic, outcome);
      ghost var a := Attempt(traffic.calls, sessionTransport.value, "GET", true, outcome);
      traffic := OnCached(traffic, outcome);
      match outcome
      case Complete(daemonKeepsAlive, untilEof) =>
        if !(daemonKeepsAlive && !untilEof) {
          sessionTransport := None;
        }
        return Some(Response);
      case TimedOut =>
        sessionTransport := None;
        return Some(TimeoutError);
      case Failed =>
        sessionTransport := None;
        return None;
    }

    /** A fresh connection for call number `call`, kept only for a session's GET. */
    method OnFreshConnection(ghost call: nat, conn: nat, verb: string, reuse: bool, outcome: Outcome)
      returns (answer: Answer)
      requires Valid() && call < traffic.calls && conn == traffic.made
      requires reuse ==> verb == "GET" && sessionTransport == None && sessionEnabled
      requires forall i :: 0 <= i < |traffic.log| && traffic.log[i].call == call ==>
        i == |traffic.log| - 1 && StaleGet(traffic.log, i) && verb == "GET"
      modifies `sessionTransport, `traffic
      ensures Valid() && traffic == OnFresh(old(traffic), call, verb, reuse, outcome)
      ensures answer == AnswerTo(outcome)
    {
      FreshKeepsOrder(traffic, call, verb, reuse, outcome);
      traffic := OnFresh(traffic, call, verb, reuse, outcome);
      match outcome
      case Complete(daemonKeepsAlive, untilEof) =>
        if reuse && daemonKeepsAlive && !untilEof {
          sessionTransport := Some(conn);
        }
        return Response;
      case TimedOut => return TimeoutError;
      case Failed => return OtherError;
    }

    /** One request. `onCached` and `onFresh` are how an attempt would end on the cached and on
        a fresh connection, `refused` why connecting failed, if it did. */
    method Request(verb: string, onCached: Outcome, refused: Option<Answer>, conn: nat, onFresh: Outcome)
      returns (answer: Answer)
      requires Valid() && conn == traffic.made
      modifies `sessionTransport, `traffic
      ensures Valid()
      ensures var t := old(traffic);
        if !(old(sessionEnabled) && verb == "GET") || t.cached == None then
          var called := t.(calls := t.calls + 1);
          if refused == None then
            && traffic == OnFresh(called, t.calls, verb, old(sessionEnabled) && verb == "GET", onFresh)
            && answer == AnswerTo(onFresh)
          else
            traffic == called && answer == refused.value
        else
          if onCached != Failed then
            traffic == OnCached(t, onCached) && answer == AnswerTo(onCached)
          else if refused == None then
            traffic == OnFresh(OnCached(t, onCached), t.calls, verb, true, onFresh) && answer == AnswerTo(onFresh)
          else
            traffic == OnCached(t, onCached) && answer == refused.value
      // the same, attempt by attempt
      ensures var (t, reuse) := (old(traffic), old(sessionEnabled) && verb == "GET");
        var first := if reuse && t.cached.Some? then [Attempt(t.calls, t.cached.value, "GET", true, onCached)] else [];
        var goesOn := first == [] || onCached == Failed;
        var second := if goesOn && refused.None? then [Attempt(t.calls, t.made, verb, reuse, onFresh)] else [];
        var left := if first == [] then t.cached else None;
        && traffic.log == t.log + first + second
        && traffic.cached == (if !goesOn then (if onCached == Complete(true, false) then t.cached else None)
                              else if second != [] && reuse && onFresh == Complete(true, false) then Some(t.made)
                              else left)
        && answer == (if goesOn && refused.Some? then refused.value
                      else
                        var ended := if goesOn then onFresh else onCached;
                        if ended.Complete? then Response else if ended == TimedOut then TimeoutError else OtherError)
    {
      hide Orderly, StaleGet;
      ghost var call := traffic.calls;
      NewCallKeepsOrder(traffic);
      var reuse := sessionEnabled && verb == "GET";
      if reuse && sessionTransport.Some? {
        var tried := TryCached(onCached);
        if tried.Some? {
          return tried.value;
        }
      } else {
        traffic := traffic.(calls := traffic.calls + 1);
      }
      if refused.Some? {
        return refused.value;
      }
      answer := OnFreshConnection(call, conn, verb, reuse, onFresh);
    }

    method EndSession()
      requires Valid()
      modifies this
      ensures Valid() && !sessionEnabled && sessionTransport == None && traffic == Dropped(old(traffic))
    {
      DroppedKeepsOrder(traffic);
      sessionEnabled := false;
      if sessionTransport.Some? {
        traffic := Dropped(traffic);
        sessionTransport := None;
      }
    }
  }

  // ----- whole runs

  /** What a program does with a client: open a session guard, destroy the one at a position,
      assign another client to this one, send a request. */
  datatype Op =
    | Begin
    | End(guard: nat)
    | Assign
    | Call(verb: string, onCached: Outcome, refused: Option<Answer>, onFresh: Outcome)

  /** A session is on only while a guard that must end it is alive. */
  ghost predicate Guarded(enabled: bool, owning: seq<bool>) {
    enabled ==> true in owning
  }

  /** Any program: the history is orderly at every moment, and once no guard is alive the
      session is off, nothing is cached and every connection ever opened is gone. */
  method Run(ops: seq<Op>) returns (c: Client, owning: seq<bool>)
    ensures c.Valid() && Guarded(c.sessionEnabled, owning)
    ensures owning == [] ==> forall conn: nat :: conn < c.traffic.made ==> conn in c.traffic.closed
  {
    c := new Client();
    owning := [];
    var connections := 0;
    for i := 0 to |ops|
      invariant c.Valid() && Guarded(c.sessionEnabled, owning) && connections == c.traffic.made
      invariant fresh(c)
    {
      match ops[i]
      case Begin =>
        owning := owning + [!c.sessionEnabled];
        assert owning[|owning| - 1] || true in owning[..|owning| - 1];
        c.sessionEnabled := true;
      case End(k) =>
        if k < |owning| {
          var owns := owning[k];
          if owns {
            c.EndSession();
          }
          if c.sessionEnabled {
            GuardGone(owning, k);
          }
          owning := owning[..k] + owning[k + 1..];
        }
      case Assign =>
        c.EndSession();
      case Call(verb, onCached, refused, onFresh) =>
        var reused := c.sessionEnabled && verb == "GET" && c.sessionTransport.Some? && onCached != Failed;
        var _ := c.Request(verb, onCached, refused, connections, onFresh);
        if !reused && refused == None {
          connections := connections + 1;
        }
    }
  }

  lemma GuardGone(owning: seq<bool>, k: nat)
    requires k < |owning| && true in owning && !owning[k]
    ensures true in owning[..k] + owning[k + 1..]
  {
    var i :| 0 <= i < |owning| && owning[i];
    assert (owning[..k] + owning[k + 1..])[if i < k then i else i - 1];
  }
}
