/** Full-duplex exchange on a hijacked stream: what its read side amounts to, and the
    sequential fallback (write everything, half-close, then read). */
module Transport {
  import opened Wrappers
  import opened Bytes

  /** Error codes; `Success` is the empty one. */
  datatype ErrorCode = Success | Eof | BrokenPipe | ConnectionReset | TimedOut | OperationAborted

  /** One completed read: its error code and the bytes that arrived with it. */
  datatype Read = Read(ec: ErrorCode, data: seq<byte>)

  /** A consumer answers each chunk from everything delivered so far, this chunk included. */
  type Consumer = seq<seq<byte>> -> bool

  /** What a read script leads to: the chunks delivered, and why reading ended, if it did.
      A consumer stop ends with `Success`. */
  datatype Reading = Reading(delivered: seq<seq<byte>>, end: Option<ErrorCode>)

  /** Reading chunk by chunk. An empty successful read is end-of-file for the interleaved
      pump (`emptyEnds`) and is passed over by the sequential loop. */
  function ReadOut(script: seq<Read>, had: seq<seq<byte>>, accept: Consumer, emptyEnds: bool): (r: Reading)
    decreases |script|
  {
    if script == [] then Reading(had, None)
    else
      var r := script[0];
      var now := if r.data == [] then had else had + [r.data];
      if r.data != [] && !accept(now) then Reading(now, Some(Success))
      else if r.ec != Success then Reading(now, Some(r.ec))
      else if r.data == [] && emptyEnds then Reading(now, Some(Eof))
      else ReadOut(script[1..], now, accept, emptyEnds)
  }

  /** Once reading has ended, further reads change nothing. */
  lemma {:induction false} ReadOutAppend(a: seq<Read>, b: seq<Read>, had: seq<seq<byte>>, accept: Consumer,
                                         emptyEnds: bool)
    ensures var first := ReadOut(a, had, accept, emptyEnds);
      ReadOut(a + b, had, accept, emptyEnds) ==
      if first.end.Some? then first else ReadOut(b, first.delivered, accept, emptyEnds)
    decreases |a|
  {
    if a == [] {
      assert a + b == b;
    } else {
      assert (a + b)[1..] == a[1..] + b;
      var now := if a[0].data == [] then had else had + [a[0].data];
      ReadOutAppend(a[1..], b, now, accept, emptyEnds);
    }
  }

  /** Before the first read. */
  lemma ReadOutNone(had: seq<seq<byte>>, accept: Consumer, emptyEnds: bool)
    ensures ReadOut([], had, accept, emptyEnds) == Reading(had, None)
  {
  }

  /** One more read, while reading goes on. */
  lemma ReadOutSnoc(script: seq<Read>, r: Read, had: seq<seq<byte>>, accept: Consumer, emptyEnds: bool)
    requires ReadOut(script, had, accept, emptyEnds).end == None
    ensures var before := ReadOut(script, had, accept, emptyEnds).delivered;
      var now := if r.data == [] then before else before + [r.data];
      ReadOut(script + [r], had, accept, emptyEnds) ==
      if r.data != [] && !accept(now) then Reading(now, Some(Success))
      else if r.ec != Success then Reading(now, Some(r.ec))
      else Reading(now, if r.data == [] && emptyEnds then Some(Eof) else None)
  {
    ReadOutAppend(script, [r], had, accept, emptyEnds);
    assert [r][1..] == [];
  }

  /** Reading ends with `Success` exactly on a refusal; otherwise everything was accepted. */
  lemma {:induction false} RefusedOrAccepted(script: seq<Read>, had: seq<seq<byte>>, accept: Consumer, emptyEnds: bool)
    ensures var r := ReadOut(script, had, accept, emptyEnds);
      if r.end == Some(Success) then !accept(r.delivered) else r.delivered == had || accept(r.delivered)
    decreases |script|
  {
    if script == [] {
    } else {
      var now := if script[0].data == [] then had else had + [script[0].data];
      RefusedOrAccepted(script[1..], now, accept, emptyEnds);
    }
  }

  /** Every delivery but the last was accepted: nothing is delivered after a refusal. */
  lemma {:induction false} AcceptedBefore(script: seq<Read>, had: seq<seq<byte>>, accept: Consumer,
                                          emptyEnds: bool, k: nat)
    requires |had| < k < |ReadOut(script, had, accept, emptyEnds).delivered|
    ensures accept(ReadOut(script, had, accept, emptyEnds).delivered[..k])
    decreases |script|
  {
    if script == [] {
    } else {
      var now := if script[0].data == [] then had else had + [script[0].data];
      ReadOutGrows(script[1..], now, accept, emptyEnds);
      if |now| < k {
        AcceptedBefore(script[1..], now, accept, emptyEnds, k);
      } else {
        assert ReadOut(script, had, accept, emptyEnds).delivered[..k] == now;
      }
    }
  }

  /** The chunks that arrive with a list of reads. */
  function Chunks(script: seq<Read>): seq<seq<byte>> {
    if script == [] then []
    else (if script[0].data == [] then [] else [script[0].data]) + Chunks(script[1..])
  }

  lemma {:induction false} ChunksSnoc(script: seq<Read>, r: Read)
    ensures Chunks(script + [r]) == if r.data == [] then Chunks(script) else Chunks(script) + [r.data]
    decreases |script|
  {
    if script == [] {
      assert [r][1..] == [];
    } else {
      assert (script + [r])[1..] == script[1..] + [r];
      ChunksSnoc(script[1..], r);
    }
  }

  /** How far a script is read: `n` reads, all successful up to the last of them; what they
      brought is delivered, and the last one ends it by its own error, an empty success where
      that is an end, or a refusal. */
  lemma {:induction false} ReadOutExplained(script: seq<Read>, had: seq<seq<byte>>, accept: Consumer, emptyEnds: bool)
    returns (n: nat)
    ensures n <= |script|
    ensures var r := ReadOut(script, had, accept, emptyEnds);
      && r.delivered == had + Chunks(script[..n])
      && (forall i :: 0 <= i < n - 1 ==> script[i].ec == Success)
      && (r.end.None? ==> n == |script| && (0 < n ==> script[n - 1].ec == Success))
      && (r.end.Some? ==> 0 < n)
      && (r.end.Some? ==> (r.end.value == Success <==> script[n - 1].data != [] && !accept(r.delivered)))
      && (r.end.Some? && r.end.value != Success ==>
          if script[n - 1].ec != Success then r.end.value == script[n - 1].ec
          else r.end.value == Eof && emptyEnds && script[n - 1].data == [])
    decreases |script|
  {
    var r := ReadOut(script, had, accept, emptyEnds);
    if script == [] {
      n := 0;
    } else {
      var (head, tail) := (script[0], script[1..]);
      var now := if head.data == [] then had else had + [head.data];
      assert script[..1] == [head] && [head][1..] == [];
      if (head.data != [] && !accept(now)) || head.ec != Success || (head.data == [] && emptyEnds) {
        n := 1;
      } else {
        var m := ReadOutExplained(tail, now, accept, emptyEnds);
        n := m + 1;
        assert script[..n] == [head] + tail[..m] && ([head] + tail[..m])[1..] == tail[..m];
        assert forall i :: 1 <= i < n ==> script[i] == tail[i - 1];
        hide ReadOut;
        assert Chunks(script[..n]) == (if head.data == [] then [] else [head.data]) + Chunks(tail[..m]);
      }
    }
  }

  predicate EmptySuccess(r: Read) {
    r.ec == Success && r.data == []
  }

  /** The first read that is not an empty success. */
  function FirstReal(script: seq<Read>): Option<Read> {
    if script == [] then None
    else if EmptySuccess(script[0]) then FirstReal(script[1..])
    else Some(script[0])
  }

  /** No empty success is reached before reading ends, or the first one reached is followed,
      further empty ones aside, by a plain end-of-file. */
  ghost predicate EmptyReadsHarmless(script: seq<Read>, had: seq<seq<byte>>, accept: Consumer)
    decreases |script|
  {
    script == [] ||
    var r := script[0];
    var now := if r.data == [] then had else had + [r.data];
    if EmptySuccess(r) then FirstReal(script[1..]) == Some(Read(Eof, []))
    else (r.data != [] && !accept(now)) || r.ec != Success || EmptyReadsHarmless(script[1..], now, accept)
  }

  /** After an empty success the sequential loop behaves as on the first real read. */
  lemma {:induction false} SkipsToReal(script: seq<Read>, had: seq<seq<byte>>, accept: Consumer)
    ensures ReadOut(script, had, accept, false) == Reading(had, Some(Eof)) <==> FirstReal(script) == Some(Read(Eof, []))
    decreases |script|
  {
    if script == [] {
    } else {
      if EmptySuccess(script[0]) {
        SkipsToReal(script[1..], had, accept);
      } else if script[0].data != [] {
        ReadOutGrows(script, had, accept, false);
      }
    }
  }

  lemma {:induction false} ReadOutGrows(script: seq<Read>, had: seq<seq<byte>>, accept: Consumer, emptyEnds: bool)
    ensures had <= ReadOut(script, had, accept, emptyEnds).delivered
    ensures script != [] && script[0].data != [] ==> |had| < |ReadOut(script, had, accept, emptyEnds).delivered|
    decreases |script|
  {
    if script == [] {
    } else {
      var now := if script[0].data == [] then had else had + [script[0].data];
      ReadOutGrows(script[1..], now, accept, emptyEnds);
    }
  }

  /** A transport's own blocking read reports an empty success, which is how a named pipe's
      peer half-closes, as end-of-file. */
  function Mapped(r: Read): Read {
    if EmptySuccess(r) then Read(Eof, []) else r
  }

  function MappedAll(script: seq<Read>): (mapped: seq<Read>)
    ensures |mapped| == |script|
    ensures forall i :: 0 <= i < |script| ==>
      mapped[i] == if script[i].ec == Success && script[i].data == [] then Read(Eof, []) else script[i]
  {
    if script == [] then [] else [Mapped(script[0])] + MappedAll(script[1..])
  }

  /** So the same completions, seen raw by the interleaved pump and through blocking reads by
      the sequential loop, are one reading: half-closes and all. */
  lemma {:induction false} MappedReadsAgree(script: seq<Read>, had: seq<seq<byte>>, accept: Consumer)
    ensures ReadOut(MappedAll(script), had, accept, false) == ReadOut(script, had, accept, true)
    decreases |script|
  {
    if script == [] {
    } else {
      var now := if script[0].data == [] then had else had + [script[0].data];
      assert MappedAll(script)[1..] == MappedAll(script[1..]);
      MappedReadsAgree(script[1..], now, accept);
    }
  }

  /** Over a transport that maps nothing, the two agree on exactly the scripts whose empty
      successful reads are harmless; scripts without any are among them. */
  lemma {:induction false} ReadingsAgree(script: seq<Read>, had: seq<seq<byte>>, accept: Consumer)
    ensures ReadOut(script, had, accept, true) == ReadOut(script, had, accept, false)
       <==> EmptyReadsHarmless(script, had, accept)
    ensures (forall r :: r in script ==> !EmptySuccess(r)) ==> EmptyReadsHarmless(script, had, accept)
    decreases |script|
  {
    if script == [] {
    } else {
      var r := script[0];
      var now := if r.data == [] then had else had + [r.data];
      if EmptySuccess(r) {
        SkipsToReal(script[1..], had, accept);
        assert r in script;
      } else {
        ReadingsAgree(script[1..], now, accept);
      }
    }
  }

  /** A concrete disagreement: an empty successful read with output still to come. */
  lemma EmptyReadTruncates()
    ensures var script := [Read(Success, []), Read(Success, [1]), Read(Eof, [])];
      ReadOut(script, [], _ => true, true) != ReadOut(script, [], _ => true, false)
  {
    var script := [Read(Success, []), Read(Success, [1]), Read(Eof, [])];
    assert script[1..] == [Read(Success, [1]), Read(Eof, [])];
    assert ReadOut(script, [], _ => true, true).delivered == [];
    ReadOutGrows(script[1..], [], _ => true, false);
  }

  // ----- the sequential fallback

  /** One completed write: its error code and how many bytes went out. */
  datatype Write = Write(ec: ErrorCode, n: nat)

  datatype Sent = Sent(n: nat, ec: ErrorCode)

  /** What writing `left` bytes comes to: writes until everything is out or one fails, an
      empty success being a broken pipe. None: the script of write results ends too early. */
  function WriteOut(left: nat, writes: seq<Write>): (s: Option<Sent>)
    ensures s.Some? ==> s.value.n <= left && (s.value.ec == Success ==> s.value.n == left)
  {
    if left == 0 then Some(Sent(0, Success))
    else if writes == [] then None
    else
      var n := if writes[0].n <= left then writes[0].n else left;   // no stream takes more than offered
      if writes[0].ec != Success then Some(Sent(n, writes[0].ec))
      else if n == 0 then Some(Sent(0, BrokenPipe))
      else
        match WriteOut(left - n, writes[1..])
        case None => None
        case Some(rest) => Some(Sent(n + rest.n, rest.ec))
  }

  /** By its cases: nothing left, no result left, and one more result. */
  lemma WriteOutMeaning(left: nat, w: Write, writes: seq<Write>)
    ensures WriteOut(0, writes) == Some(Sent(0, Success))
    ensures 0 < left ==> WriteOut(left, []) == None
    ensures var n := if w.n <= left then w.n else left;
      var rest := WriteOut(left - n, writes);
      left == 0 || WriteOut(left, [w] + writes) ==
        if w.ec != Success then Some(Sent(n, w.ec))
        else if n == 0 then Some(Sent(0, BrokenPipe))
        else if rest.None? then None
        else Some(Sent(n + rest.value.n, rest.value.ec))
  {
    assert ([w] + writes)[1..] == writes;
  }

  /** Writes all of `data`, each write handing over what is left; `wire` is what the writes
      took. `done` is false when the script ends too early. */
  method WriteAll(data: seq<byte>, writes: seq<Write>) returns (wire: seq<byte>, ec: ErrorCode, done: bool)
    ensures WriteOut(|data|, writes) == if done then Some(Sent(|wire|, ec)) else None
    ensures wire <= data
  {
    ec, wire := Success, [];
    var sent, i := 0, 0;
    assert writes[0..] == writes;
    while sent < |data| && ec == Success
      invariant sent <= |data| && i <= |writes| && wire == data[..sent]
      invariant ec == Success ==>
        var rest := WriteOut(|data| - sent, writes[i..]);
        WriteOut(|data|, writes) == if rest.None? then None else Some(Sent(sent + rest.value.n, rest.value.ec))
      invariant ec != Success ==> WriteOut(|data|, writes) == Some(Sent(sent, ec))
      decreases |writes| - i
    {
      if i == |writes| {
        return wire, ec, false;
      }
      assert writes[i..][1..] == writes[i + 1..];
      var offered := data[sent..];
      var n := if writes[i].n <= |offered| then writes[i].n else |offered|;
      ec := writes[i].ec;
      if n == 0 && ec == Success {
        ec := BrokenPipe;
      }
      wire := wire + offered[..n];
      sent := sent + n;
      i := i + 1;
    }
    return wire, ec, true;
  }

  /** The clock at each read, and the read. */
  datatype TimedRead = TimedRead(now: int, read: Read)

  function ReadsIn(timed: seq<TimedRead>): (script: seq<Read>)
    ensures |script| == |timed| && forall i :: 0 <= i < |timed| ==> script[i] == timed[i].read
  {
    if timed == [] then [] else [timed[0].read] + ReadsIn(timed[1..])
  }

  /** The reads begun before the deadline. */
  function InTime(timed: seq<TimedRead>, deadline: Option<int>): (on: seq<TimedRead>)
    ensures on <= timed
    ensures deadline.Some? ==> forall t <- on :: t.now < deadline.value
    ensures |on| < |timed| ==> deadline.Some? && deadline.value <= timed[|on|].now
  {
    if timed == [] || (deadline.Some? && deadline.value <= timed[0].now) then []
    else [timed[0]] + InTime(timed[1..], deadline)
  }

  datatype Exchanged = Exchanged(wire: seq<byte>, eofs: nat, delivered: seq<seq<byte>>, ec: ErrorCode)

  /** Write, half-close, then read: what the peer got is decided by the writes alone, what was
      delivered by the reads begun in time alone, and the result code says why reading ended.
      None: a script ended first. */
  method SequentialExchange(input: seq<byte>, eofAfterInput: bool, accept: Consumer, deadline: Option<int>,
                            writes: seq<Write>, timed: seq<TimedRead>)
    returns (r: Option<Exchanged>)
    ensures var (sent, on) := (WriteOut(|input|, writes), InTime(timed, deadline));
      var reading := ReadOut(ReadsIn(on), [], accept, false);
      if sent.None? || (reading.end.None? && |on| == |timed|) then r == None
      else r == Some(Exchanged(input[..sent.value.n], if sent.value.ec == Success && eofAfterInput then 1 else 0,
                               reading.delivered, if reading.end.None? then TimedOut else reading.end.value))
  {
    var wire, sendEc, done := WriteAll(input, writes);
    if !done {
      return None;
    }
    assert wire == input[..|wire|];
    hide WriteOut;
    var eofs := if sendEc == Success && eofAfterInput then 1 else 0;
    var reading := ReadUntil(accept, deadline, timed);
    if reading.None? {
      return None;
    }
    return Some(Exchanged(wire, eofs, reading.value.delivered, reading.value.end.value));
  }

  /** The read loop of the sequential exchange. */
  method ReadUntil(accept: Consumer, deadline: Option<int>, timed: seq<TimedRead>) returns (r: Option<Reading>)
    ensures var on := InTime(timed, deadline);
      var reading := ReadOut(ReadsIn(on), [], accept, false);
      r == if reading.end.Some? then Some(reading)
           else if |on| < |timed| then Some(reading.(end := Some(TimedOut)))
           else None
  {
    var delivered: seq<seq<byte>> := [];
    assert timed[0..] == timed;
    ghost var on := InTime(timed, deadline);
    for i := 0 to |timed|
      invariant ReadOut(ReadsIn(on), [], accept, false)
             == ReadOut(ReadsIn(InTime(timed[i..], deadline)), delivered, accept, false)
      invariant |on| == i + |InTime(timed[i..], deadline)|
    {
      var t := timed[i];
      TimedStep(timed, i, deadline);
      if deadline.Some? && deadline.value <= t.now {
        return Some(Reading(delivered, Some(TimedOut)));
      }
      if t.read.data != [] {
        delivered := delivered + [t.read.data];
        if !accept(delivered) {
          return Some(Reading(delivered, Some(Success)));
        }
      }
      if t.read.ec != Success {
        return Some(Reading(delivered, Some(t.read.ec)));
      }
    }
    return None;
  }

  /** One read off the front of the script, if it began in time. */
  lemma TimedStep(timed: seq<TimedRead>, i: nat, deadline: Option<int>)
    requires i < |timed|
    ensures var (on, rest) := (InTime(timed[i..], deadline), InTime(timed[i + 1..], deadline));
      if deadline.Some? && deadline.value <= timed[i].now then on == []
      else |on| == 1 + |rest| && on[0] == timed[i] && ReadsIn(on) == [timed[i].read] + ReadsIn(rest)
           && ReadsIn(on)[0] == timed[i].read && ReadsIn(on)[1..] == ReadsIn(rest)
  {
    assert timed[i..][1..] == timed[i + 1..];
    var rest := InTime(timed[i + 1..], deadline);
    assert ([timed[i]] + rest)[1..] == rest;
    assert ([timed[i].read] + ReadsIn(rest))[1..] == ReadsIn(rest);
  }
}
