/** The interleaved exchange: a read chain and a write chain in flight at once on one event
    loop, an end-of-input signal, an idle bound, a deadline, and a cancel-and-drain epilogue.
    Everything the loop cannot choose (which operation completes, how, and when) comes from
    an arbitrary script; a completion of an operation not in flight is some other handler's. */
module DuplexExchange {
  import opened Wrappers
  import opened Bytes
  import opened Transport

  const WRITE_CHUNK := 64 * 1024

  /** One handler the event loop ran: ours, or one internal to the stream. */
  datatype Completion = ReadDone(read: Read) | WriteDone(ec: ErrorCode, n: nat) | Foreign

  /** One turn of the loop, entered at clock `now`: a handler ran, or none did up to `until`.
      The loop returns without a handler only when its budget is spent or nothing is in
      flight; otherwise it waits on. */
  datatype Round = Ran(now: int, c: Completion) | Idle(now: int, until: int)

  /** What an exchange is asked to do. */
  datatype Job = Job(input: seq<byte>, eofAfterInput: bool, accept: Consumer,
                     ioTimeout: Option<nat>, deadline: Option<int>)

  datatype Outcome = Outcome(exchanged: Exchanged, expired: bool)

  // ----- the two sides, each decided by its own completions

  /** The reads among the handlers that ran. */
  function ReadsOf(rounds: seq<Round>): seq<Read> {
    if rounds == [] then []
    else (if rounds[0].Ran? && rounds[0].c.ReadDone? then [rounds[0].c.read] else []) + ReadsOf(rounds[1..])
  }

  lemma {:induction false} ReadsOfAppend(a: seq<Round>, b: seq<Round>)
    ensures ReadsOf(a + b) == ReadsOf(a) + ReadsOf(b)
    decreases |a|
  {
    if a == [] {
      assert a + b == b;
    } else {
      assert (a + b)[1..] == a[1..] + b;
      ReadsOfAppend(a[1..], b);
    }
  }

  /** A round adds the read that completed in it, if one did. */
  lemma ReadsOfSnoc(rounds: seq<Round>, round: Round)
    ensures ReadsOf([]) == []
    ensures ReadsOf(rounds + [round]) ==
            ReadsOf(rounds) + if round.Ran? && round.c.ReadDone? then [round.c.read] else []
  {
    ReadsOfAppend(rounds, [round]);
    assert [round][1..] == [];
  }

  /** The write chain: how much went out, and whether and how it has finished. */
  datatype Sending = Sending(sent: nat, ec: ErrorCode, drained: bool)

  function Offer(size: nat, s: Sending): nat {
    if s.drained || size <= s.sent then 0 else if WRITE_CHUNK < size - s.sent then WRITE_CHUNK else size - s.sent
  }

  function AfterWrite(size: nat, s: Sending, ec: ErrorCode, n: nat): Sending {
    if s.drained || Offer(size, s) < n then s
    else Sending(s.sent + n, ec, ec != Success || size <= s.sent + n)
  }

  function AfterRound(size: nat, s: Sending, round: Round): Sending {
    if round.Ran? && round.c.WriteDone? then AfterWrite(size, s, round.c.ec, round.c.n) else s
  }

  /** What the write completions among the handlers come to. */
  function SendOut(size: nat, rounds: seq<Round>): (s: Sending)
    ensures s.sent <= size && (s.drained && s.ec == Success ==> s.sent == size)
  {
    if rounds == [] then Sending(0, Success, size == 0)
    else AfterRound(size, SendOut(size, rounds[..|rounds| - 1]), rounds[|rounds| - 1])
  }

  lemma SendOutSnoc(size: nat, rounds: seq<Round>, i: nat)
    requires i < |rounds|
    ensures SendOut(size, rounds[..i + 1]) == AfterRound(size, SendOut(size, rounds[..i]), rounds[i])
    ensures ReadsOf(rounds[..i + 1]) == ReadsOf(rounds[..i]) + ReadsOf([rounds[i]])
  {
    assert rounds[..i + 1][..i] == rounds[..i];
    assert rounds[..i + 1] == rounds[..i] + [rounds[i]];
    ReadsOfAppend(rounds[..i], [rounds[i]]);
  }

  /** Round by round: a write of at most 64 KiB, the first error, and the end of the input. */
  lemma SendOutMeaning(size: nat, rounds: seq<Round>, round: Round)
    ensures SendOut(size, []) == Sending(0, Success, size == 0)
    ensures var s := SendOut(size, rounds);
      SendOut(size, rounds + [round]) ==
      if !(round.Ran? && round.c.WriteDone?) || s.drained || 65536 < round.c.n || size - s.sent < round.c.n then s
      else Sending(s.sent + round.c.n, round.c.ec, round.c.ec != Success || s.sent + round.c.n == size)
  {
    assert (rounds + [round])[..|rounds|] == rounds;
  }

  predicate AllSent(s: Sending) {
    s.drained && s.ec == Success
  }

  // ----- budgets, and where the loop stops

  /** The longest the loop may wait for a handler, if bounded: the idle bound while input is
      going out, and what is left until the deadline. */
  function Budget(job: Job, drained: bool, now: int): Option<int> {
    var idle := if !drained && job.ioTimeout.Some? then Some(job.ioTimeout.value) else None;
    if job.deadline.None? then idle
    else if idle.Some? && idle.value <= job.deadline.value - now then idle
    else Some(job.deadline.value - now)
  }

  /** The turn gives up: the deadline had passed, or no handler ran within the budget. */
  predicate Expires(job: Job, drained: bool, round: Round) {
    || (job.deadline.Some? && job.deadline.value <= round.now)
    || (round.Idle? && Spent(Budget(job, drained, round.now), round.now, round.until))
  }

  predicate Spent(budget: Option<int>, now: int, until: int) {
    budget.Some? && now + budget.value <= until
  }

  function ReadingAfter(job: Job, rounds: seq<Round>): Reading {
    ReadOut(ReadsOf(rounds), [], job.accept, true)
  }

  predicate Ongoing(job: Job, rounds: seq<Round>) {
    ReadingAfter(job, rounds).end.None?
  }

  predicate ExpiresAt(job: Job, rounds: seq<Round>, k: nat)
    requires k < |rounds|
  {
    Expires(job, SendOut(|job.input|, rounds[..k]).drained, rounds[k])
  }

  /** The loop stops after `turns` handlers: reading is over, or the next turn gives up, or
      the script ends; and nothing stopped it earlier. */
  ghost predicate StopsAfter(job: Job, rounds: seq<Round>, turns: nat) {
    && turns <= |rounds|
    && NothingStopped(job, rounds, turns)
    && (turns == |rounds| || !Ongoing(job, rounds[..turns]) || ExpiresAt(job, rounds, turns))
  }

  /** How many handlers run before the loop stops, `i` having run already. */
  function TurnsFrom(job: Job, rounds: seq<Round>, i: nat): (turns: nat)
    requires i <= |rounds|
    ensures i <= turns <= |rounds|
    decreases |rounds| - i
  {
    if i == |rounds| || !Ongoing(job, rounds[..i]) || ExpiresAt(job, rounds, i) then i
    else TurnsFrom(job, rounds, i + 1)
  }

  function Turns(job: Job, rounds: seq<Round>): (turns: nat)
    ensures turns <= |rounds|
  {
    TurnsFrom(job, rounds, 0)
  }

  /** So where it stops is determined by the script. */
  lemma StopsOnce(job: Job, rounds: seq<Round>, turns: nat)
    ensures StopsAfter(job, rounds, turns) <==> turns == Turns(job, rounds)
  {
    StopsFrom(job, rounds, 0, turns);
    StopsFrom(job, rounds, 0, Turns(job, rounds));
  }

  lemma {:induction false} StopsFrom(job: Job, rounds: seq<Round>, i: nat, turns: nat)
    requires i <= turns && i <= |rounds| && NothingStopped(job, rounds, i)
    ensures StopsAfter(job, rounds, turns) <==> turns == TurnsFrom(job, rounds, i)
    decreases |rounds| - i
  {
    if i == |rounds| || !Ongoing(job, rounds[..i]) || ExpiresAt(job, rounds, i) {
    } else {
      NothingStoppedStep(job, rounds, i);
      if turns == i {
        assert !StopsAfter(job, rounds, turns);
      } else {
        StopsFrom(job, rounds, i + 1, turns);
      }
    }
  }

  lemma {:induction false} DrainedStays(size: nat, rounds: seq<Round>, i: nat, k: nat)
    requires i <= k <= |rounds| && SendOut(size, rounds[..i]).drained
    ensures SendOut(size, rounds[..k]) == SendOut(size, rounds[..i])
    decreases k
  {
    if i == k {
    } else {
      DrainedStays(size, rounds, i, k - 1);
      SendOutSnoc(size, rounds, k - 1);
    }
  }

  /** Once the input is done with, an exchange without a deadline waits for its peer however
      long that takes: it ends only when reading does. */
  lemma WaitsOnceSent(job: Job, rounds: seq<Round>, k: nat)
    requires job.deadline.None? && k <= Turns(job, rounds) && SendOut(|job.input|, rounds[..k]).drained
    ensures Turns(job, rounds) == |rounds| || !Ongoing(job, rounds[..Turns(job, rounds)])
  {
    StopsOnce(job, rounds, Turns(job, rounds));
    DrainedStays(|job.input|, rounds, k, Turns(job, rounds));
  }

  /** No turn begun at or after the deadline runs a handler, and neither does a turn in which
      nothing happens until the deadline, or for the idle bound while input is unsent: the
      exchange is over by then. */
  lemma BudgetsBound(job: Job, rounds: seq<Round>, k: nat)
    requires k < |rounds|
    requires var (round, drained) := (rounds[k], SendOut(|job.input|, rounds[..k]).drained);
      || (job.deadline.Some? && (job.deadline.value <= round.now || (round.Idle? && job.deadline.value <= round.until)))
      || (!drained && job.ioTimeout.Some? && round.Idle? && job.ioTimeout.value <= round.until - round.now)
    ensures Turns(job, rounds) <= k
  {
    StopsOnce(job, rounds, Turns(job, rounds));
    assert ExpiresAt(job, rounds, k);
  }

  /** And the loop gives up for no other reason. */
  lemma GivesUpWhenSpent(job: Job, rounds: seq<Round>)
    requires Turns(job, rounds) < |rounds| && Ongoing(job, rounds[..Turns(job, rounds)])
    ensures var k := Turns(job, rounds);
      var (round, drained) := (rounds[k], SendOut(|job.input|, rounds[..k]).drained);
      || (job.deadline.Some? && (job.deadline.value <= round.now || (round.Idle? && job.deadline.value <= round.until)))
      || (!drained && job.ioTimeout.Some? && round.Idle? && job.ioTimeout.value <= round.until - round.now)
  {
    StopsOnce(job, rounds, Turns(job, rounds));
  }

  // ----- the pump

  class Pump {
    const job: Job

    var sent: nat
    var readDone: bool
    var readEc: ErrorCode
    var writesDrained: bool
    var eofOwed: bool
    var sendEc: ErrorCode
    var stopping: bool

    // What happened outside: operations in flight, and what the peer and the consumer saw.
    var pendingReads: nat
    var pendingWrites: nat
    var offered: seq<byte>               // what the write in flight hands over
    ghost var started: nat               // operations ever started
    var wire: seq<byte>                  // bytes the peer accepted, in the order it did
    var delivered: seq<seq<byte>>        // chunks handed to the consumer
    var eofs: nat                        // end-of-input signals sent
    ghost var seen: seq<Read>            // reads completed before stopping

    function Send(): Sending
      reads `sent, `sendEc, `writesDrained
    {
      Sending(sent, sendEc, writesDrained)
    }

    /** Never more than one operation of each kind in flight; until the epilogue a read always
        is, unless reading is done, and a write, unless the input is done with. */
    ghost predicate InFlight()
      reads `pendingReads, `pendingWrites, `stopping, `readDone, `writesDrained
    {
      && pendingReads <= 1 && pendingWrites <= 1
      && (!stopping ==> (pendingReads == 1 <==> !readDone) && (pendingWrites == 1 <==> !writesDrained))
    }

    /** The write in flight hands over the next chunk, and the peer has the input so far. */
    ghost predicate SendSide()
      reads `pendingWrites, `stopping, `writesDrained, `sendEc, `sent, `offered, `wire, `eofOwed, `eofs
    {
      && (pendingWrites == 1 ==> !writesDrained && sendEc == Success && sent < |job.input|)
      && (pendingWrites == 1 ==> offered == job.input[sent..sent + Offer(|job.input|, Send())])
      && sent <= |job.input| && wire == job.input[..sent]
      && (!stopping && AllSent(Send()) ==> sent == |job.input|)
      && (!stopping ==> (eofOwed <==> job.eofAfterInput && eofs == 0 && sendEc == Success))
      && eofs <= 1
      && (eofs == 1 ==> job.eofAfterInput && sent == |job.input| && sendEc == Success && pendingWrites == 0)
    }

    /** The consumer has what the reads so far lead to. */
    ghost predicate ReadSide()
      reads `readDone, `readEc, `seen, `delivered
    {
      && (!readDone ==> readEc == Success)
      && ReadOut(seen, [], job.accept, true) == Reading(delivered, if readDone then Some(readEc) else None)
    }

    ghost predicate Valid()
      reads this
    {
      InFlight() && SendSide() && ReadSide()
    }

    /** What no handler may change once the epilogue has begun. */
    twostate predicate Frozen()
      reads this
    {
      && stopping == old(stopping) && started == old(started) && delivered == old(delivered)
      && readDone == old(readDone) && readEc == old(readEc) && eofs == old(eofs) && seen == old(seen)
    }

    constructor (job: Job)
      ensures Valid() && !stopping && !readDone && seen == [] && eofs == 0
      ensures this.job == job && Send() == SendOut(|job.input|, [])
    {
      this.job := job;
      sent, readDone, readEc, writesDrained, sendEc, stopping := 0, false, Success, job.input == [], Success, false;
      eofOwed := job.eofAfterInput;
      pendingReads, pendingWrites, offered, started := 0, 0, [], 0;
      wire, delivered, eofs, seen := [], [], 0, [];
      new;
      StartRead();
      if !writesDrained {
        StartWrite();
      }
    }

    method StartRead()
      requires pendingReads == 0
      modifies `pendingReads, `started
      ensures pendingReads == 1 && started == old(started) + 1
    {
      pendingReads, started := 1, started + 1;
    }

    /** Offers the next chunk of the input (see Offer). */
    method StartWrite()
      requires pendingWrites == 0 && sent < |job.input|
      modifies `pendingWrites, `started, `offered
      ensures pendingWrites == 1 && started == old(started) + 1
      ensures var left := |job.input| - sent;
        offered == job.input[sent..sent + if WRITE_CHUNK < left then WRITE_CHUNK else left]
    {
      var chunk := if WRITE_CHUNK < |job.input| - sent then WRITE_CHUNK else |job.input| - sent;
      offered := job.input[sent..sent + chunk];
      pendingWrites, started := 1, started + 1;
    }

    /** The read handler: maps an empty success to end-of-file, delivers, and re-arms. */
    method OnRead(r: Read)
      requires Valid() && pendingReads == 1
      modifies `pendingReads, `started, `readDone, `readEc, `delivered, `seen
      ensures Valid()
      ensures old(stopping) ==> Frozen() && pendingReads == 0
      ensures !old(stopping) ==> seen == old(seen) + [r]
    {
      hide SendSide;
      pendingReads := 0;
      var endEc := if r.ec == Success && r.data == [] then Eof else r.ec;
      if stopping {
        return;
      }
      ReadOutSnoc(seen, r, [], job.accept, true);
      hide ReadOut;
      seen := seen + [r];
      if r.data != [] {
        delivered := delivered + [r.data];
        if !job.accept(delivered) {
          readDone := true;
          return;
        }
      }
      if endEc != Success {
        readEc := endEc;
        readDone := true;
        return;
      }
      StartRead();
    }

    /** The peer took the first `n` bytes of what the write in flight handed over. */
    method Took(n: nat)
      requires SendSide() && pendingWrites == 1 && n <= |offered|
      modifies `pendingWrites, `sent, `wire
      ensures pendingWrites == 0 && sent == old(sent) + n && wire == old(wire) + offered[..n]
      ensures sent <= |job.input| && wire == job.input[..sent]
    {
      pendingWrites := 0;
      sent := sent + n;
      wire := wire + offered[..n];
    }

    /** The write handler: counts what went out, and re-arms while input is left. */
    method OnWrite(ec: ErrorCode, n: nat)
      requires Valid() && pendingWrites == 1 && n <= Offer(|job.input|, Send())
      modifies `pendingWrites, `started, `offered, `sent, `wire, `sendEc, `writesDrained, `eofOwed
      ensures Valid() && sent == old(sent) + n && wire == old(wire) + old(offered)[..n]
      ensures Send() == AfterWrite(|job.input|, old(Send()), ec, n) || (old(stopping) && writesDrained)
      ensures old(stopping) ==> Frozen() && pendingWrites == 0
    {
      hide ReadSide;
      Took(n);
      if ec != Success {
        sendEc := ec;
        writesDrained := true;
        eofOwed := false;
        return;
      }
      if stopping {
        writesDrained := true;
        return;
      }
      if sent < |job.input| {
        StartWrite();
        return;
      }
      writesDrained := true;
    }

    /** Is this the completion of an operation in flight? */
    predicate Ours(c: Completion)
      reads this
    {
      match c
      case ReadDone(_) => pendingReads == 1
      case WriteDone(_, n) => pendingWrites == 1 && n <= Offer(|job.input|, Send())
      case Foreign => false
    }

    /** Runs one handler. */
    method Dispatch(c: Completion)
      requires Valid()
      modifies `pendingReads, `pendingWrites, `started, `offered, `sent, `wire, `sendEc, `writesDrained, `eofOwed,
               `readDone, `readEc, `delivered, `seen
      ensures Valid() && stopping == old(stopping)
      ensures old(stopping) ==> Frozen()
      ensures old(stopping) ==> pendingReads == if c.ReadDone? then 0 else old(pendingReads)
      ensures old(stopping) ==> pendingWrites == if old(Ours(c)) && c.WriteDone? then 0 else old(pendingWrites)
      ensures sent == old(sent) + if old(Ours(c)) && c.WriteDone? then c.n else 0
      ensures !old(Ours(c)) ==> Send() == old(Send())
      ensures !old(stopping) && !old(readDone) ==> seen == old(seen) + (if c.ReadDone? then [c.read] else [])
      ensures !old(stopping) ==>
        Send() == (if c.WriteDone? then AfterWrite(|job.input|, old(Send()), c.ec, c.n) else old(Send()))
    {
      hide ReadOut;
      if !Ours(c) {
        return;
      }
      match c
      case ReadDone(r) => OnRead(r);
      case WriteDone(ec, n) => OnWrite(ec, n);
    }

    /** One turn of the outer loop: an owed end-of-input signal, the deadline, one handler. */
    method TakeTurn(round: Round) returns (expired: bool)
      requires Valid() && !stopping && !readDone
      modifies this
      ensures Valid() && !stopping
      ensures eofs == (if old(eofs) == 1 || (job.eofAfterInput && AllSent(old(Send()))) then 1 else 0)
      ensures expired == Expires(job, old(writesDrained), round)
      ensures expired ==> !readDone && seen == old(seen) && Send() == old(Send())
      ensures !expired ==> seen == old(seen) + ReadsOf([round]) && Send() == AfterRound(|job.input|, old(Send()), round)
    {
      hide ReadOut;
      if writesDrained && eofOwed {
        eofs := eofs + 1;
        eofOwed := false;
      }
      if job.deadline.Some? && job.deadline.value <= round.now {
        return true;
      }
      assert [round][1..] == [];
      var budget := Budget(job, writesDrained, round.now);
      match round
      case Ran(_, c) =>
        Dispatch(c);
        return false;
      case Idle(now, until) =>
        return Spent(budget, now, until) || pendingReads + pendingWrites == 0;
    }

    /** The epilogue: cancels, and runs every handler still in flight, once each; nothing is
        re-armed or delivered. What `script` leaves in flight completes as cancelled. */
    method Drain(script: seq<Completion>)
      requires Valid() && !stopping
      modifies this
      ensures Valid() && stopping && pendingReads == 0 && pendingWrites == 0
      ensures started == old(started) && delivered == old(delivered) && eofs == old(eofs) && seen == old(seen)
      ensures readDone == old(readDone) && readEc == old(readEc)
      ensures old(sent) <= sent <= old(sent) + Offer(|job.input|, old(Send()))
    {
      hide ReadOut;
      stopping := true;
      var cancelled := [ReadDone(Read(OperationAborted, [])), WriteDone(OperationAborted, 0)];
      label cancel:
      for j := 0 to |script|
        invariant Valid() && stopping && Frozen@cancel()
        invariant old(sent) <= sent <= old(sent) + Offer(|job.input|, old(Send()))
        invariant pendingWrites == 1 ==> Send() == old(Send())
      {
        Dispatch(script[j]);
      }
      Dispatch(cancelled[0]);
      Dispatch(cancelled[1]);
    }
  }

  /** A whole run. None: the script ended before anything stopped the loop. */
  method Exchange(job: Job, rounds: seq<Round>, drain: seq<Completion>) returns (r: Option<Outcome>)
    ensures r.None? <==> Turns(job, rounds) == |rounds| && Ongoing(job, rounds[..Turns(job, rounds)])
    ensures r.Some? ==>
      var turns := Turns(job, rounds);
      var (reading, sending) := (ReadingAfter(job, rounds[..turns]), SendOut(|job.input|, rounds[..turns]));
      var x := r.value.exchanged;
      // expired means that reading was not over
      && (r.value.expired <==> reading.end.None?)
      // the consumer side follows the reads alone, whatever the drain completed
      && x.delivered == reading.delivered
      // the code is the reading's own end (none after a refusal), but a cancelled read and an
      // expiry are timeouts
      && (x.ec == if r.value.expired || reading.end.value == OperationAborted then TimedOut else reading.end.value)
      // the peer side follows the writes alone, up to the one write the drain may complete
      && x.wire <= job.input && sending.sent <= |x.wire| <= sending.sent + 65536
      && (sending.drained ==> |x.wire| == sending.sent)
      && x.eofs <= 1 && (x.eofs == 1 ==> job.eofAfterInput && x.wire == job.input)
      // end-of-input is signalled once a turn begins with everything sent
      && x.eofs == if EofDue(job, rounds, if r.value.expired then turns + 1 else turns) then 1 else 0
  {
    var pump := new Pump(job);
    var ended, expired := RunLoop(pump, rounds);
    if !ended {
      return None;
    }
    pump.Drain(drain);
    var ec := if expired || !pump.readDone then TimedOut else FinalCode(pump.readEc);
    return Some(Outcome(Exchanged(pump.wire, pump.eofs, pump.delivered, ec), expired));
  }

  /** The outer loop; not `ended` when the script ends first. */
  method RunLoop(pump: Pump, rounds: seq<Round>) returns (ended: bool, expired: bool)
    requires Follows(pump, []) && pump.eofs == 0
    modifies pump
    ensures var turns := Turns(pump.job, rounds);
      && Follows(pump, rounds[..turns])
      && pump.eofs == (if EofDue(pump.job, rounds, if expired then turns + 1 else turns) then 1 else 0)
      && (expired ==> turns < |rounds| && !pump.readDone)
      && (ended <==> expired || pump.readDone)
      && (!ended ==> turns == |rounds|)
  {
    hide ReadOut, SendOut, ReadsOf, EofDue, NothingStopped, Expires;
    expired := false;
    var i := 0;
    assert rounds[..0] == [];
    NothingYet(pump.job, rounds);
    while !pump.readDone && !expired
      invariant i <= |rounds| && Follows(pump, rounds[..i])
      invariant NothingStopped(pump.job, rounds, i)
      invariant expired ==> i < |rounds| && ExpiresAt(pump.job, rounds, i) && !pump.readDone
      invariant pump.eofs == if EofDue(pump.job, rounds, if expired then i + 1 else i) then 1 else 0
      decreases |rounds| - i, !expired
    {
      if i == |rounds| {
        StopsOnce(pump.job, rounds, i);
        return false, false;
      }
      EofDueStep(pump.job, rounds, i);
      expired := pump.TakeTurn(rounds[i]);
      if !expired {
        SendOutSnoc(|pump.job.input|, rounds, i);
        NothingStoppedStep(pump.job, rounds, i);
        i := i + 1;
      }
    }
    StopsOnce(pump.job, rounds, i);
    return true, expired;
  }

  lemma NothingYet(job: Job, rounds: seq<Round>)
    ensures NothingStopped(job, rounds, 0) && !EofDue(job, rounds, 0)
  {
  }

  /** The pump has run exactly these rounds. */
  ghost predicate Follows(pump: Pump, rounds: seq<Round>)
    reads pump
  {
    && pump.Valid() && !pump.stopping
    && pump.seen == ReadsOf(rounds) && pump.Send() == SendOut(|pump.job.input|, rounds)
    && (pump.readDone <==> !Ongoing(pump.job, rounds))
  }

  ghost predicate NothingStopped(job: Job, rounds: seq<Round>, turns: nat)
    requires turns <= |rounds|
  {
    forall i :: 0 <= i < turns ==> Ongoing(job, rounds[..i]) && !ExpiresAt(job, rounds, i)
  }

  lemma NothingStoppedStep(job: Job, rounds: seq<Round>, i: nat)
    requires i < |rounds| && NothingStopped(job, rounds, i) && Ongoing(job, rounds[..i]) && !ExpiresAt(job, rounds, i)
    ensures NothingStopped(job, rounds, i + 1)
  {
  }

  lemma EofDueStep(job: Job, rounds: seq<Round>, i: nat)
    requires i < |rounds|
    ensures EofDue(job, rounds, i + 1) <==>
      EofDue(job, rounds, i) || (job.eofAfterInput && AllSent(SendOut(|job.input|, rounds[..i])))
  {
  }

  /** Some turn among the first `turns` began with everything sent and a signal asked for. */
  ghost predicate EofDue(job: Job, rounds: seq<Round>, turns: nat) {
    job.eofAfterInput && exists j :: 0 <= j < turns && j < |rounds| && AllSent(SendOut(|job.input|, rounds[..j]))
  }

  /** A cancelled read is reported as the deadline the caller knows about. */
  function FinalCode(readEc: ErrorCode): ErrorCode {
    if readEc == OperationAborted then TimedOut else readEc
  }

  // ----- agreement with the sequential fallback

  lemma {:induction false} ReadsInPrefix(on: seq<TimedRead>, timed: seq<TimedRead>)
    requires on <= timed
    ensures ReadsIn(on) <= ReadsIn(timed)
    decreases |on|
  {
    if on == [] {
    } else {
      ReadsInPrefix(on[1..], timed[1..]);
    }
  }

  /** A reading that has ended is that of every longer script. */
  lemma EndedReading(part: seq<Read>, whole: seq<Read>, accept: Consumer, emptyEnds: bool)
    requires part <= whole && ReadOut(part, [], accept, emptyEnds).end.Some?
    ensures ReadOut(whole, [], accept, emptyEnds) == ReadOut(part, [], accept, emptyEnds)
  {
    assert whole == part + whole[|part|..];
    ReadOutAppend(part, whole[|part|..], [], accept, emptyEnds);
  }

  /** The sequential exchange's reading is over before its deadline. */
  predicate EndsInTime(job: Job, timed: seq<TimedRead>) {
    ReadOut(ReadsIn(InTime(timed, job.deadline)), [], job.accept, false).end.Some?
  }

  /** For every sequence of read completions, half-closes included, and for every interleaving
      of write completions: when neither exchange runs out of time, both deliver the same chunks
      and report the same code, but that a cancelled read is a timeout to the interleaved one. */
  method AgreesWithSequential(job: Job, rounds: seq<Round>, drain: seq<Completion>,
                              writes: seq<Write>, timed: seq<TimedRead>)
    returns (pumped: Option<Outcome>, sequential: Option<Exchanged>)
    requires ReadsIn(timed) == MappedAll(ReadsOf(rounds))
    ensures pumped.Some? && !pumped.value.expired && sequential.Some? && EndsInTime(job, timed) ==>
      && pumped.value.exchanged.delivered == sequential.value.delivered
      && (pumped.value.exchanged.ec ==
          if sequential.value.ec == OperationAborted then TimedOut else sequential.value.ec)
  {
    pumped := Exchange(job, rounds, drain);
    ghost var turns := Turns(job, rounds);
    sequential := SequentialExchange(job.input, job.eofAfterInput, job.accept, job.deadline, writes, timed);
    var on := InTime(timed, job.deadline);
    if pumped.Some? && !pumped.value.expired && EndsInTime(job, timed) {
      assert rounds == rounds[..turns] + rounds[turns..];
      ReadsOfAppend(rounds[..turns], rounds[turns..]);
      EndedReading(ReadsOf(rounds[..turns]), ReadsOf(rounds), job.accept, true);
      ReadsInPrefix(on, timed);
      EndedReading(ReadsIn(on), ReadsIn(timed), job.accept, false);
      MappedReadsAgree(ReadsOf(rounds), [], job.accept);
    }
  }
}
