/** The SSH tunnel's connection pump: forwarded connections between an SSH channel and a
    local socket, two bounded buffers each, over a session that can do anything. */
module SshTunnel {
  import opened Bytes

  const CAP := 256 * 1024          // a buffer this full pauses its reader
  const BLOCK := 16 * 1024         // the most one read returns

  /** What the session or a socket may answer to a call. */
  datatype Answer =
    | Data(bytes: seq<byte>)   // a read that returned bytes
    | EndOfFile                // the peer half-closed
    | Empty                    // a channel read of nothing, without end-of-file
    | Wrote(n: nat)            // a write that took n bytes
    | Done                     // an accept, connect, end-of-file or free that went through
    | Again                    // would block
    | Failed                   // this connection broke
    | Fatal                    // the whole session broke

  /** The calls a pump makes. */
  datatype Call = ReadCh | WriteSock | ReadSock | WriteCh | SendEof | Accept | Connect | Free

  /** Answers in an arbitrary order; one that cannot be an answer to the call, or a missing
      one, means that the call would block. */
  class World {
    var script: seq<Answer>
    ghost var last: Answer               // the latest answer
    ghost var log: seq<(Call, Answer)>   // every call made, and its answer
    ghost var accepts: nat               // connections that arrived
    ghost var given: seq<byte>           // bytes read from anywhere
    ghost var taken: seq<byte>           // bytes written to anywhere

    constructor (script: seq<Answer>)
      ensures this.script == script && accepts == 0
    {
      this.script := script;
      accepts := 0;
    }

    method Next(ghost call: Call) returns (a: Answer)
      modifies this
      ensures a != Again ==> |script| < old(|script|)
      ensures old(script) != [] ==> script == old(script)[1..] && a == old(script)[0]
      ensures old(script) == [] ==> script == [] && a == Again
      ensures last == a && given == old(given) && taken == old(taken) && log == old(log) + [(call, a)]
      ensures accepts == old(accepts) + if call == Accept && a == Done then 1 else 0
    {
      a := Again;
      if script != [] {
        a := script[0];
        script := script[1..];
      }
      last := a;
      log := log + [(call, a)];
      accepts := accepts + if call == Accept && a == Done then 1 else 0;
    }

    method Read(ghost call: Call) returns (a: Answer)
      requires call != Accept
      modifies this
      ensures a.Data? ==> 1 <= |a.bytes| <= BLOCK
      ensures !a.Wrote? && !a.Done?
      ensures old(script) != [] && !old(script)[0].Data? && !a.Again? ==> a == old(script)[0]
      ensures old(script) != [] ==> script == old(script)[1..] && (old(script)[0].EndOfFile? ==> a.EndOfFile?)
      ensures last == a && taken == old(taken) && given == old(given) + (if a.Data? then a.bytes else [])
      ensures log == old(log) + [(call, a)] && accepts == old(accepts)
      ensures forall from: nat :: from <= |old(log)| ==> LastSaid(log, from, call, a)
    {
      a := Next(call);
      if a.Wrote? || a.Done? || (a.Data? && !(1 <= |a.bytes| <= BLOCK)) {
        a := Again;
      }
      last := a;
      log := log[..|log| - 1] + [(call, a)];
      JustSaid(old(log), call, a);
      given := given + if a.Data? then a.bytes else [];
    }

    method Write(ghost call: Call, data: seq<byte>) returns (a: Answer)
      requires call != Accept
      modifies this
      ensures a.Wrote? ==> 1 <= a.n <= |data|
      ensures a.Wrote? || a.Again? || a.Failed? || a.Fatal?
      ensures last == a && given == old(given) && taken == old(taken) + (if a.Wrote? then data[..a.n] else [])
      ensures log == old(log) + [(call, a)] && accepts == old(accepts)
      ensures forall from: nat :: from <= |old(log)| ==> LastSaid(log, from, call, a)
    {
      a := Next(call);
      if !(a.Failed? || a.Fatal? || (a.Wrote? && 1 <= a.n <= |data|)) {
        a := Again;
      }
      last := a;
      log := log[..|log| - 1] + [(call, a)];
      JustSaid(old(log), call, a);
      taken := taken + if a.Wrote? then data[..a.n] else [];
    }
  }

  /** Since position `from`, this was the last answer to calls of one kind. */
  ghost predicate LastSaid(log: seq<(Call, Answer)>, from: nat, call: Call, a: Answer) {
    exists i :: from <= i < |log| && log[i] == (call, a) && forall j :: i < j < |log| ==> log[j].0 != call
  }

  lemma JustSaid(log: seq<(Call, Answer)>, call: Call, a: Answer)
    ensures forall from: nat :: from <= |log| ==> LastSaid(log + [(call, a)], from, call, a)
  {
    assert (log + [(call, a)])[|log|] == (call, a);
  }

  /** Only calls of one kind have been made since. */
  ghost predicate OnlyCalls(before: seq<(Call, Answer)>, after: seq<(Call, Answer)>, call: Call) {
    before <= after && forall i :: |before| <= i < |after| ==> after[i].0 == call
  }

  /** Calls of other kinds do not change the last answer to this one; nor does looking further
      back for it. */
  lemma StillSaid(before: seq<(Call, Answer)>, after: seq<(Call, Answer)>, from: nat, back: nat, call: Call, a: Answer)
    requires before <= after && (forall i :: |before| <= i < |after| ==> after[i].0 != call) && back <= from
    ensures LastSaid(before, from, call, a) ==> LastSaid(after, back, call, a)
  {
    if LastSaid(before, from, call, a) {
      var i :| from <= i < |before| && before[i] == (call, a) && forall j :: i < j < |before| ==> before[j].0 != call;
      assert after[i] == before[i];
      forall j | i < j < |after| ensures after[j].0 != call {
        assert j < |before| ==> after[j] == before[j];
      }
    }
  }

  /** The next answer is the peer's half-close. */
  predicate AtEnd(script: seq<Answer>) {
    script != [] && script[0].EndOfFile?
  }

  /** The last read of one kind since `from` brought nothing. */
  ghost predicate SaidNothing(log: seq<(Call, Answer)>, from: nat, call: Call) {
    LastSaid(log, from, call, Again) || LastSaid(log, from, call, Empty)
  }

  /** One forwarded connection. */
  class Conn {
    var toSock: seq<byte>      // channel -> local service, pending bytes
    var toCh: seq<byte>        // local service -> channel, pending bytes
    var chEof: bool            // remote client half-closed
    var sockEof: bool          // local service half-closed
    var sockSendShut: bool
    var chEofSent: bool
    var sockOpen: bool
    var done: bool

    ghost var chRead: seq<byte>       // everything read from the channel
    ghost var sockWritten: seq<byte>  // everything written to the socket
    ghost var sockRead: seq<byte>     // everything read from the socket
    ghost var chWritten: seq<byte>    // everything written to the channel
    ghost var shutdowns: nat          // send-shutdowns of the socket
    ghost var eofsSent: nat           // end-of-files that went out on the channel
    ghost var eofAnswers: seq<Answer> // what the session said to each end-of-file call
    ghost var broken: bool            // refused, or failed half-way
    ghost var pumps: nat              // passes over this connection

    /** From the channel to the socket: lossless, in order and bounded, and half-closed only
        after the channel's end has drained. */
    ghost predicate InOrder()
      reads `chRead, `sockWritten, `toSock, `sockSendShut, `chEof, `shutdowns
    {
      && chRead == sockWritten + toSock && |toSock| < CAP + BLOCK
      && (sockSendShut ==> chEof && toSock == []) && shutdowns == (if sockSendShut then 1 else 0)
    }

    /** From the socket to the channel: the same, and end-of-file is out exactly when the
        session's latest answer to that call was that it went through. */
    ghost predicate OutOrder()
      reads `sockRead, `chWritten, `toCh, `chEofSent, `sockEof, `eofsSent, `eofAnswers
    {
      && sockRead == chWritten + toCh && |toCh| < CAP + BLOCK
      && (chEofSent ==> sockEof && toCh == []) && eofsSent == (if chEofSent then 1 else 0)
      && (chEofSent <==> eofAnswers != [] && eofAnswers[|eofAnswers| - 1].Done?)
    }

    /** Both directions in order; done means drained, or broken. */
    ghost predicate Valid()
      reads this
    {
      && InOrder() && OutOrder()
      && (done && !broken ==> chEof && sockEof && toSock == [] && toCh == [] && eofAnswers != [])
      && (broken ==> done && !sockOpen)
    }

    /** Nothing buffered, and neither end seen. */
    predicate Fresh()
      reads `chEof, `sockEof, `toSock, `toCh
    {
      !chEof && !sockEof && toSock == [] && toCh == []
    }

    /** What is on the wires only ever grows. */
    twostate predicate Grows()
      reads this
    {
      && old(chRead) <= chRead && old(sockWritten) <= sockWritten
      && old(sockRead) <= sockRead && old(chWritten) <= chWritten
      && (old(chEof) ==> chEof && chRead == old(chRead))
      && (old(sockEof) ==> sockEof && sockRead == old(sockRead))
    }

    constructor (connected: bool)
      ensures Valid() && chRead == [] && sockRead == [] && done == !connected && broken == !connected
      ensures toSock == [] && toCh == [] && !chEof && !sockEof && !chEofSent
    {
      toSock, toCh, chEof, sockEof, sockSendShut, chEofSent := [], [], false, false, false, false;
      sockOpen, done, broken := connected, !connected, !connected;
      chRead, sockWritten, sockRead, chWritten, shutdowns, eofsSent, eofAnswers := [], [], [], [], 0, 0, [];
    }

    method CloseSocket()
      requires Valid()
      modifies `sockOpen
      ensures Valid() && !sockOpen
    {
      sockOpen := false;
    }

    method Break()
      requires Valid()
      modifies `sockOpen, `done, `broken
      ensures Valid() && done && broken
    {
      sockOpen, done, broken := false, true, true;
    }

    method GotFromChannel(bytes: seq<byte>)
      requires Valid() && !done && !chEof && |bytes| <= BLOCK && |toSock| < CAP
      modifies `toSock, `chRead
      ensures Valid() && toSock == old(toSock) + bytes && chRead == old(chRead) + bytes
    {
      toSock := toSock + bytes;
      chRead := chRead + bytes;
    }

    method EndChannel()
      requires Valid() && !done
      modifies `chEof
      ensures Valid() && chEof
    {
      chEof := true;
    }

    /** channel -> buffer, paused while the buffer is at its cap. Returns Again unless the
        connection or the session broke. */
    method ReadChannel(w: World) returns (a: Answer)
      requires Valid() && !done
      modifies `toSock, `chRead, `chEof, w
      ensures Valid() && Grows()
      ensures old(chEof) || CAP <= old(|toSock|) ==> chRead == old(chRead)
      ensures !old(chEof) && old(|toSock|) < CAP && AtEnd(old(w.script)) ==>
        a.Again? && chEof && toSock == old(toSock) && w.script == old(w.script)[1..]
      ensures a.Again? || ((a.Failed? || a.Fatal?) && w.last == a)
      ensures w.taken == old(w.taken) && w.given == old(w.given) + chRead[|old(chRead)|..]
      ensures OnlyCalls(old(w.log), w.log, ReadCh) && w.accepts == old(w.accepts)
      ensures a.Again? ==> chEof || CAP <= |toSock| || SaidNothing(w.log, |old(w.log)|, ReadCh)
    {
      hide InOrder, OutOrder, LastSaid;
      ghost var added: seq<byte> := [];
      while !chEof && |toSock| < CAP
        invariant Valid() && !done && (old(chEof) ==> chEof && chRead == old(chRead))
        invariant w.taken == old(w.taken) && w.given == old(w.given) + added && chRead == old(chRead) + added
        invariant OnlyCalls(old(w.log), w.log, ReadCh) && w.accepts == old(w.accepts)
        invariant old(chEof) || CAP <= old(|toSock|) ==> chRead == old(chRead)
        invariant AtEnd(old(w.script)) ==> chEof == old(chEof) && toSock == old(toSock) && w.script == old(w.script)
        decreases CAP - |toSock|
      {
        var r := w.Read(ReadCh);
        match r
        case Data(bytes) =>
          GotFromChannel(bytes);
          added := added + bytes;
        case EndOfFile =>
          EndChannel();
          break;
        case Failed => return Failed;
        case Fatal => return Fatal;
        case _ => return Again;
      }
      return Again;
    }

    /** buffer -> local service. */
    method DrainToSocket(w: World) returns (a: Answer)
      requires Valid() && !done
      modifies `toSock, `sockWritten, w
      ensures Valid() && Grows()
      ensures a.Again? || (a.Failed? && (w.last.Failed? || w.last.Fatal?))
      ensures w.given == old(w.given) && w.taken == old(w.taken) + sockWritten[|old(sockWritten)|..]
      ensures OnlyCalls(old(w.log), w.log, WriteSock) && w.accepts == old(w.accepts)
      ensures a.Again? && toSock != [] ==> LastSaid(w.log, |old(w.log)|, WriteSock, Again)
      ensures old(toSock) == [] ==> a.Again? && toSock == [] && w.script == old(w.script)
    {
      hide OutOrder, LastSaid;
      while toSock != []
        invariant Valid() && Grows() && !done
        invariant w.given == old(w.given) && w.taken == old(w.taken) + sockWritten[|old(sockWritten)|..]
        invariant OnlyCalls(old(w.log), w.log, WriteSock) && w.accepts == old(w.accepts)
        invariant old(toSock) == [] ==> toSock == [] && w.script == old(w.script)
        decreases |toSock|
      {
        var r := w.Write(WriteSock, toSock);
        match r
        case Wrote(n) =>
          assert toSock == toSock[..n] + toSock[n..];
          sockWritten := sockWritten + toSock[..n];
          toSock := toSock[n..];
        case Failed => return Failed;
        case Fatal => return Failed;   // a socket cannot break the session
        case _ => return Again;
      }
      return Again;
    }

    /** buffer -> local service, then the half-close once the channel's end has drained. */
    method WriteSocket(w: World) returns (a: Answer)
      requires Valid() && !done
      modifies `toSock, `sockWritten, `sockSendShut, `shutdowns, w
      ensures Valid() && Grows()
      ensures a.Again? || (a.Failed? && (w.last.Failed? || w.last.Fatal?))
      ensures w.given == old(w.given) && w.taken == old(w.taken) + sockWritten[|old(sockWritten)|..]
      ensures OnlyCalls(old(w.log), w.log, WriteSock) && w.accepts == old(w.accepts)
      ensures a.Again? && toSock != [] ==> LastSaid(w.log, |old(w.log)|, WriteSock, Again)
      ensures a.Again? && chEof && toSock == [] ==> sockSendShut
      ensures old(toSock) == [] ==> a.Again? && toSock == [] && w.script == old(w.script)
    {
      hide OutOrder, LastSaid, OnlyCalls;
      a := DrainToSocket(w);
      if a.Again? && chEof && toSock == [] && !sockSendShut {
        sockSendShut := true;
        shutdowns := shutdowns + 1;
      }
    }

    method GotFromSocket(bytes: seq<byte>)
      requires Valid() && !done && !sockEof && |bytes| <= BLOCK && |toCh| < CAP
      modifies `toCh, `sockRead
      ensures Valid() && toCh == old(toCh) + bytes && sockRead == old(sockRead) + bytes
    {
      toCh := toCh + bytes;
      sockRead := sockRead + bytes;
    }

    method EndSocket()
      requires Valid() && !done
      modifies `sockEof
      ensures Valid() && sockEof
    {
      sockEof := true;
    }

    /** local service -> buffer, paused while the buffer is at its cap. */
    method ReadSocket(w: World) returns (a: Answer)
      requires Valid() && !done
      modifies `toCh, `sockRead, `sockEof, w
      ensures Valid() && Grows()
      ensures old(sockEof) || CAP <= old(|toCh|) ==> sockRead == old(sockRead)
      ensures !old(sockEof) && old(|toCh|) < CAP && AtEnd(old(w.script)) ==>
        a.Again? && sockEof && toCh == old(toCh) && w.script == old(w.script)[1..]
      ensures a.Again? || (a.Failed? && (w.last.Failed? || w.last.Fatal?))
      ensures w.taken == old(w.taken) && w.given == old(w.given) + sockRead[|old(sockRead)|..]
      ensures OnlyCalls(old(w.log), w.log, ReadSock) && w.accepts == old(w.accepts)
      ensures a.Again? ==> sockEof || CAP <= |toCh| || SaidNothing(w.log, |old(w.log)|, ReadSock)
    {
      hide InOrder, OutOrder, LastSaid;
      ghost var added: seq<byte> := [];
      while !sockEof && |toCh| < CAP
        invariant Valid() && !done && (old(sockEof) ==> sockEof && sockRead == old(sockRead))
        invariant w.taken == old(w.taken) && w.given == old(w.given) + added && sockRead == old(sockRead) + added
        invariant OnlyCalls(old(w.log), w.log, ReadSock) && w.accepts == old(w.accepts)
        invariant old(sockEof) || CAP <= old(|toCh|) ==> sockRead == old(sockRead)
        invariant AtEnd(old(w.script)) ==> sockEof == old(sockEof) && toCh == old(toCh) && w.script == old(w.script)
        decreases CAP - |toCh|
      {
        var r := w.Read(ReadSock);
        match r
        case Data(bytes) =>
          GotFromSocket(bytes);
          added := added + bytes;
        case EndOfFile =>
          EndSocket();
          break;
        case Failed => return Failed;
        case Fatal => return Failed;
        case _ => return Again;
      }
      return Again;
    }

    /** buffer -> channel. */
    method DrainToChannel(w: World) returns (a: Answer)
      requires Valid() && !done
      modifies `toCh, `chWritten, w
      ensures Valid() && Grows()
      ensures a.Again? || ((a.Failed? || a.Fatal?) && w.last == a)
      ensures w.given == old(w.given) && w.taken == old(w.taken) + chWritten[|old(chWritten)|..]
      ensures OnlyCalls(old(w.log), w.log, WriteCh) && w.accepts == old(w.accepts)
      ensures a.Again? && toCh != [] ==> LastSaid(w.log, |old(w.log)|, WriteCh, Again)
      ensures old(toCh) == [] ==> a.Again? && toCh == [] && w.script == old(w.script)
    {
      hide InOrder, LastSaid;
      while toCh != []
        invariant Valid() && Grows() && !done
        invariant w.given == old(w.given) && w.taken == old(w.taken) + chWritten[|old(chWritten)|..]
        invariant OnlyCalls(old(w.log), w.log, WriteCh) && w.accepts == old(w.accepts)
        invariant old(toCh) == [] ==> toCh == [] && w.script == old(w.script)
        decreases |toCh|
      {
        var r := w.Write(WriteCh, toCh);
        match r
        case Wrote(n) =>
          assert toCh == toCh[..n] + toCh[n..];
          chWritten := chWritten + toCh[..n];
          toCh := toCh[n..];
        case Failed => return Failed;
        case Fatal => return Fatal;
        case _ => return Again;
      }
      return Again;
    }

    /** buffer -> channel, then the channel's end-of-file, retried while it would block. */
    method WriteChannel(w: World) returns (a: Answer)
      requires Valid() && !done
      modifies `toCh, `chWritten, `chEofSent, `eofsSent, `eofAnswers, w
      ensures Valid() && Grows()
      ensures a.Again? || ((a.Failed? || a.Fatal?) && w.last == a)
      ensures w.given == old(w.given) && w.taken == old(w.taken) + chWritten[|old(chWritten)|..]
      ensures old(w.log) <= w.log && w.accepts == old(w.accepts)
      ensures forall i :: |old(w.log)| <= i < |w.log| ==> w.log[i].0 == WriteCh || w.log[i].0 == SendEof
      ensures a.Again? && toCh != [] ==> LastSaid(w.log, |old(w.log)|, WriteCh, Again)
      ensures eofAnswers == old(eofAnswers) +
        if a.Again? && toCh == [] && sockEof && !old(chEofSent) then [w.last] else []
      ensures chEofSent <==> old(chEofSent) || (|old(eofAnswers)| < |eofAnswers| && w.last.Done?)
      ensures old(toCh) == [] && old(w.script) == [] ==> a.Again? && toCh == [] && chEofSent == old(chEofSent)
    {
      hide InOrder;
      a := DrainToChannel(w);
      if a.Again? && sockEof && toCh == [] && !chEofSent {
        var r := w.Next(SendEof);
        eofAnswers := eofAnswers + [r];
        if r.Done? {
          chEofSent := true;
          eofsSent := eofsSent + 1;
        }
      }
    }

    /** The channel's bytes on to the socket. */
    method PumpToSocket(w: World) returns (a: Answer)
      requires Valid() && !done
      modifies `toSock, `chRead, `chEof, `sockWritten, `sockSendShut, `shutdowns, w
      ensures Valid() && Grows()
      ensures a.Again? || a.Failed? || a.Fatal?
      ensures a.Again? && chEof && toSock == [] ==> sockSendShut
      ensures old(w.log) <= w.log && w.accepts == old(w.accepts)
      ensures forall i :: |old(w.log)| <= i < |w.log| ==> w.log[i].0 == ReadCh || w.log[i].0 == WriteSock
      ensures a.Again? && toSock != [] ==> LastSaid(w.log, |old(w.log)|, WriteSock, Again)
      ensures a.Again? ==>
        chEof || CAP <= |chRead| - |old(sockWritten)| || SaidNothing(w.log, |old(w.log)|, ReadCh)
      ensures !old(chEof) && old(toSock) == [] && AtEnd(old(w.script)) ==>
        a.Again? && chEof && toSock == [] && w.script == old(w.script)[1..]
    {
      hide LastSaid;
      ghost var from := |w.log|;
      a := ReadChannel(w);
      if a.Again? {
        ghost var read := w.log;
        a := WriteSocket(w);
        StillSaid(read, w.log, from, from, ReadCh, Again);
        StillSaid(read, w.log, from, from, ReadCh, Empty);
        StillSaid(w.log, w.log, |read|, from, WriteSock, Again);
      }
    }

    /** The socket's bytes on to the channel. */
    method PumpToChannel(w: World) returns (a: Answer)
      requires Valid() && !done
      modifies `toCh, `sockRead, `sockEof, `chWritten, `chEofSent, `eofsSent, `eofAnswers, w
      ensures Valid() && Grows()
      ensures a.Again? || a.Failed? || a.Fatal?
      ensures a.Again? && toCh == [] && sockEof ==> eofAnswers != []
      ensures a.Again? && toCh == [] && sockEof ==> (chEofSent <==> old(chEofSent) || w.last.Done?)
      ensures old(w.log) <= w.log && w.accepts == old(w.accepts)
      ensures forall i :: |old(w.log)| <= i < |w.log| ==>
        w.log[i].0 == ReadSock || w.log[i].0 == WriteCh || w.log[i].0 == SendEof
      ensures a.Again? && toCh != [] ==> LastSaid(w.log, |old(w.log)|, WriteCh, Again)
      ensures a.Again? ==>
        sockEof || CAP <= |sockRead| - |old(chWritten)| || SaidNothing(w.log, |old(w.log)|, ReadSock)
      ensures !old(sockEof) && old(toCh) == [] && old(w.script) == [EndOfFile] ==>
        a.Again? && sockEof && toCh == [] && chEofSent == old(chEofSent)
    {
      hide LastSaid;
      ghost var from := |w.log|;
      a := ReadSocket(w);
      if a.Again? {
        ghost var read := w.log;
        a := WriteChannel(w);
        StillSaid(read, w.log, from, from, ReadSock, Again);
        StillSaid(read, w.log, from, from, ReadSock, Empty);
        StillSaid(w.log, w.log, |read|, from, WriteCh, Again);
      }
    }

    /** What is left in a buffer would have blocked, and each side was read until its end, a
        full buffer, or nothing to read. */
    ghost predicate Progressed(log: seq<(Call, Answer)>, from: nat, sockHad: nat, chHad: nat)
      reads this
    {
      && (toSock != [] ==> LastSaid(log, from, WriteSock, Again))
      && (toCh != [] ==> LastSaid(log, from, WriteCh, Again))
      && (chEof || CAP <= |chRead| - sockHad || SaidNothing(log, from, ReadCh))
      && (sockEof || CAP <= |sockRead| - chHad || SaidNothing(log, from, ReadSock))
    }

    method PumpBothWays(w: World) returns (a: Answer)
      requires Valid() && !done
      modifies `toSock, `chRead, `chEof, `sockWritten, `sockSendShut, `shutdowns,
               `toCh, `sockRead, `sockEof, `chWritten, `chEofSent, `eofsSent, `eofAnswers, w
      ensures Valid() && Grows()
      ensures a.Again? || a.Failed? || a.Fatal?
      ensures a.Again? && chEof && toSock == [] ==> sockSendShut
      ensures a.Again? && toCh == [] && sockEof ==> eofAnswers != []
      ensures a.Again? && toCh == [] && sockEof ==> (chEofSent <==> old(chEofSent) || w.last.Done?)
      ensures old(w.log) <= w.log && w.accepts == old(w.accepts)
      ensures a.Again? ==> Progressed(w.log, |old(w.log)|, |old(sockWritten)|, |old(chWritten)|)
      ensures old(Fresh()) && old(w.script) == [EndOfFile, EndOfFile] ==>
        a.Again? && chEof && sockEof && toSock == [] && toCh == [] && chEofSent == old(chEofSent)
    {
      hide LastSaid;
      ghost var from := |w.log|;
      a := PumpToSocket(w);
      if a.Again? {
        ghost var half := w.log;
        a := PumpToChannel(w);
        StillSaid(half, w.log, from, from, ReadCh, Again);
        StillSaid(half, w.log, from, from, ReadCh, Empty);
        StillSaid(half, w.log, from, from, WriteSock, Again);
        StillSaid(w.log, w.log, |half|, from, ReadSock, Again);
        StillSaid(w.log, w.log, |half|, from, ReadSock, Empty);
        StillSaid(w.log, w.log, |half|, from, WriteCh, Again);
      }
    }

    /** One pass over the connection. `fatal`: the session broke, not just this connection. */
    method Pump(w: World) returns (fatal: bool)
      requires Valid() && !done
      modifies this, w
      ensures Valid() && Grows()
      ensures fatal ==> broken
      ensures done <==> broken || (chEof && sockEof && toSock == [] && toCh == [])
      ensures done && !broken ==> sockWritten == chRead && chWritten == sockRead && sockSendShut
      ensures done && !broken ==> (chEofSent <==> old(chEofSent) || w.last.Done?)
      ensures !done ==> sockOpen == old(sockOpen)
      ensures pumps == old(pumps) + 1
      ensures old(w.log) <= w.log && w.accepts == old(w.accepts)
      // what is left in a buffer would have blocked: the last write of this pass said so
      ensures !broken && toSock != [] ==> exists i :: |old(w.log)| <= i < |w.log| && w.log[i] == (WriteSock, Again)
                                           && forall j :: i < j < |w.log| ==> w.log[j].0 != WriteSock
      ensures !broken && toCh != [] ==> exists i :: |old(w.log)| <= i < |w.log| && w.log[i] == (WriteCh, Again)
                                         && forall j :: i < j < |w.log| ==> w.log[j].0 != WriteCh
      // each side was read until its end, 256 KiB of buffer, or a read that brought nothing
      ensures !broken && !chEof && |chRead| - |old(sockWritten)| < 262144 ==>
        exists i :: |old(w.log)| <= i < |w.log| && (w.log[i] == (ReadCh, Again) || w.log[i] == (ReadCh, Empty))
                    && forall j :: i < j < |w.log| ==> w.log[j].0 != ReadCh
      ensures !broken && !sockEof && |sockRead| - |old(chWritten)| < 262144 ==>
        exists i :: |old(w.log)| <= i < |w.log| && (w.log[i] == (ReadSock, Again) || w.log[i] == (ReadSock, Empty))
                    && forall j :: i < j < |w.log| ==> w.log[j].0 != ReadSock
      ensures old(Fresh()) && old(w.script) == [EndOfFile, EndOfFile] ==>
        done && !broken && chEofSent == old(chEofSent)
    {
      pumps := pumps + 1;
      var a := PumpBothWays(w);
      if !a.Again? {
        Break();
      } else if chEof && sockEof && toSock == [] && toCh == [] {
        done := true;
      }
      return a.Fatal?;
    }
  }

  /** The tunnel: forwarded ports and their live connections over one session. */
  class Tunnel {
    const listeners: nat
    var conns: seq<Conn>
    var dead: bool

    ghost var accepted: set<Conn>       // every connection ever accepted
    ghost var freed: multiset<Conn>     // how often each one's channel was freed

    /** Every accepted channel is either live or has been freed once, and every connection
        ever accepted keeps its own invariant. */
    ghost predicate Valid()
      reads this, accepted
    {
      && (forall c :: c in accepted ==> c.Valid())
      && multiset(conns) + freed == multiset(accepted)
      && (forall c :: c in conns ==> c in accepted)
    }

    constructor (listeners: nat)
      ensures Valid() && accepted == {} && !dead
    {
      this.listeners := listeners;
      conns, dead, accepted, freed := [], false, {}, multiset{};
    }

    method Register(c: Conn)
      requires Valid() && c.Valid() && c !in accepted
      modifies `conns, `accepted
      ensures Valid() && conns == old(conns) + [c] && accepted == old(accepted) + {c}
      ensures |accepted| == |old(accepted)| + 1
    {
      assert multiset(accepted + {c}) == multiset(accepted) + multiset{c};
      conns := conns + [c];
      accepted := accepted + {c};
    }

    /** Takes the connections that have arrived on one forwarded port; a refused local connect
        is done with at once. Returns whether the session broke. */
    method AcceptAll(w: World) returns (fatal: bool)
      requires Valid()
      modifies `conns, `accepted, w
      ensures Valid() && old(accepted) <= accepted && old(conns) <= conns
      ensures |accepted| - |old(accepted)| == w.accepts - old(w.accepts)
      ensures forall c :: c in accepted ==> c in old(accepted) || fresh(c)
    {
      while true
        invariant Valid() && old(accepted) <= accepted && old(conns) <= conns
        invariant |accepted| - |old(accepted)| == w.accepts - old(w.accepts)
        invariant forall c :: c in accepted ==> c in old(accepted) || fresh(c)
        decreases |w.script|
      {
        var r := AcceptOne(w);
        if !r.Done? {
          return r.Fatal?;
        }
      }
    }

    /** The connection that arrived next, if one did. */
    method AcceptOne(w: World) returns (r: Answer)
      requires Valid()
      modifies `conns, `accepted, w
      ensures Valid() && old(accepted) <= accepted && old(conns) <= conns
      ensures |accepted| - |old(accepted)| == w.accepts - old(w.accepts) == if r.Done? then 1 else 0
      ensures forall c :: c in accepted ==> c in old(accepted) || fresh(c)
      ensures r.Done? ==> |w.script| < |old(w.script)|
    {
      r := w.Next(Accept);
      if r.Done? {
        var connect := w.Next(Connect);
        var c := new Conn(connect.Done?);
        Register(c);
      }
    }

    /** The session broke: no connection moves any more. */
    method Fail()
      requires Valid()
      modifies `dead, accepted`sockOpen
      ensures Valid() && dead && forall c <- conns :: !c.sockOpen
    {
      dead := true;
      for i := 0 to |conns|
        invariant Valid() && dead && conns == old(conns) && accepted == old(accepted)
        invariant forall k :: 0 <= k < i ==> !conns[k].sockOpen
      {
        assert conns[i] in conns;
        conns[i].CloseSocket();
      }
    }

    /** Pumps every live connection exactly once, or until the session breaks. */
    method PumpConns(w: World)
      requires Valid() && !dead
      modifies `dead, accepted, w
      ensures Valid()
      ensures w.accepts == old(w.accepts)
      ensures !dead ==> forall c <- conns :: c.pumps == old(c.pumps) + if old(c.done) then 0 else 1
      ensures dead ==> forall c <- conns :: !c.sockOpen
    {
      for i := 0 to |conns|
        invariant w.accepts == old(w.accepts)
        invariant Valid() && !dead && conns == old(conns) && accepted == old(accepted)
        invariant forall k :: 0 <= k < i ==> conns[k].pumps == old(conns[k].pumps) + if old(conns[k].done) then 0 else 1
        invariant forall k :: i <= k < |conns| ==>
          conns[k].pumps == old(conns[k].pumps) && conns[k].done == old(conns[k].done)
      {
        assert conns[i] in conns;
        Distinct(conns, i, accepted, freed);
        if !conns[i].done {
          var fatal := conns[i].Pump(w);
          if fatal {
            Fail();
            return;
          }
        }
      }
    }

    /** Frees the channels of finished connections, and of no other; one whose free would
        block is kept. */
    method FreeDone(w: World)
      requires Valid()
      modifies `conns, `freed, accepted`sockOpen, w
      ensures Valid()
      ensures w.accepts == old(w.accepts)
      ensures forall c :: old(freed)[c] < freed[c] ==> c in accepted && c.done
      ensures forall c <- old(conns) :: c in conns || (c.done && freed[c] == old(freed)[c] + 1)
    {
      var i := 0;
      while i < |conns|
        invariant w.accepts == old(w.accepts)
        invariant Valid() && i <= |conns| && accepted == old(accepted)
        invariant forall c :: old(freed)[c] < freed[c] ==> c in accepted && c.done
        decreases |conns| - i
      {
        assert conns[i] in conns;
        var erased := false;
        if conns[i].done {
          erased := TryFree(i, w);
        }
        if !erased {
          i := i + 1;
        }
      }
      forall c <- old(conns) ensures c in conns || (c.done && freed[c] == old(freed)[c] + 1) {
        LeftOrFreed(old(conns), conns, old(freed), freed, accepted, c);
      }
    }

    method TryFree(i: nat, w: World) returns (erased: bool)
      requires Valid() && i < |conns| && conns[i].done
      modifies `conns, `freed, accepted`sockOpen, w
      ensures w.accepts == old(w.accepts)
      ensures Valid() && accepted == old(accepted)
      ensures erased <==> !w.last.Again?
      ensures !erased ==> conns == old(conns) && freed == old(freed)
      ensures erased ==> |conns| == |old(conns)| - 1 && freed == old(freed) + multiset{old(conns[i])}
    {
      var c := conns[i];
      assert c in conns;
      var r := w.Next(Free);
      erased := !r.Again?;
      if erased {
        c.CloseSocket();
        EraseAt(conns, i);
        freed := freed + multiset{c};
        conns := conns[..i] + conns[i + 1..];
      }
    }

    /** One pass over the whole session. */
    method Pass(w: World)
      requires Valid() && !dead
      modifies this, accepted, w
      ensures Valid() && old(accepted) <= accepted
      ensures |accepted| - |old(accepted)| == w.accepts - old(w.accepts)
      ensures forall c :: c in accepted ==> c in old(accepted) || fresh(c)
      ensures !dead ==> forall c <- old(conns) :: c.pumps == old(c.pumps) + if old(c.done) then 0 else 1
      ensures dead ==> forall c <- conns :: !c.sockOpen
    {
      var fatal := AcceptEverywhere(w);
      if fatal {
        Fail();
        return;
      }
      PumpConns(w);
      if !dead {
        FreeDone(w);
      }
    }

    method AcceptEverywhere(w: World) returns (fatal: bool)
      requires Valid()
      modifies `conns, `accepted, w
      ensures Valid() && old(accepted) <= accepted && old(conns) <= conns
      ensures |accepted| - |old(accepted)| == w.accepts - old(w.accepts)
      ensures forall c :: c in accepted ==> c in old(accepted) || fresh(c)
    {
      for l := 0 to listeners
        invariant Valid() && old(accepted) <= accepted && old(conns) <= conns
        invariant |accepted| - |old(accepted)| == w.accepts - old(w.accepts)
        invariant forall c :: c in accepted ==> c in old(accepted) || fresh(c)
      {
        fatal := AcceptAll(w);
        if fatal {
          return true;
        }
      }
      return false;
    }

    /** Teardown, in blocking mode: frees every channel that is left. */
    method Close()
      requires Valid()
      modifies `conns, `freed
      ensures Valid() && conns == []
      ensures forall c :: freed[c] == if c in accepted then 1 else 0
    {
      assert conns[0..] == conns;
      for i := 0 to |conns|
        invariant multiset(conns[i..]) + freed == multiset(accepted) && conns == old(conns)
      {
        assert conns[i..] == [conns[i]] + conns[i + 1..];
        freed := freed + multiset{conns[i]};
      }
      assert conns[|conns|..] == [] && freed == multiset(accepted);
      forall c ensures freed[c] == if c in accepted then 1 else 0 {
        assert multiset(accepted)[c] == if c in accepted then 1 else 0;
      }
      conns := [];
    }
  }

  lemma Twice(cs: seq<Conn>, a: nat, b: nat)
    requires a < b < |cs| && cs[a] == cs[b]
    ensures 2 <= multiset(cs)[cs[a]]
  {
    assert cs == cs[..b] + ([cs[b]] + cs[b + 1..]);
    assert cs[..b][a] == cs[a];
  }

  /** No connection is in the list twice. */
  lemma Distinct(conns: seq<Conn>, i: nat, accepted: set<Conn>, freed: multiset<Conn>)
    requires i < |conns| && multiset(conns) + freed == multiset(accepted)
    ensures forall k :: 0 <= k < |conns| && k != i ==> conns[k] != conns[i]
  {
    assert multiset(conns)[conns[i]] <= multiset(accepted)[conns[i]] <= 1;
    forall k | 0 <= k < |conns| && k != i ensures conns[k] != conns[i] {
      if conns[k] == conns[i] {
        Twice(conns, if k < i then k else i, if k < i then i else k);
      }
    }
  }

  lemma LeftOrFreed(before: seq<Conn>, after: seq<Conn>, freedBefore: multiset<Conn>, freed: multiset<Conn>,
                    accepted: set<Conn>, c: Conn)
    requires multiset(before) + freedBefore == multiset(accepted) == multiset(after) + freed
    requires c in before
    ensures c in after || freed[c] == freedBefore[c] + 1
  {
    assert multiset(accepted)[c] <= 1;
    assert c in multiset(before);
  }

  lemma EraseAt(cs: seq<Conn>, i: nat)
    requires i < |cs|
    ensures multiset(cs) == multiset(cs[..i] + cs[i + 1..]) + multiset{cs[i]}
  {
    assert cs == cs[..i] + ([cs[i]] + cs[i + 1..]);
  }

  /** Any number of passes with the session answering anything, then teardown: every accepted
      channel is freed exactly once, and every connection kept its invariant throughout. The
      connections are as many as the session reported. */
  method Run(listeners: nat, script: seq<Answer>, passes: nat) returns (t: Tunnel, w: World)
    ensures t.Valid() && |t.accepted| == w.accepts
    ensures forall c :: t.freed[c] == if c in t.accepted then 1 else 0
    ensures forall c :: c in t.accepted ==>
      && c.sockWritten <= c.chRead && c.chWritten <= c.sockRead
      && |c.toSock| < 256 * 1024 + 16 * 1024 && |c.toCh| < 256 * 1024 + 16 * 1024
      && (c.done && !c.broken ==> c.sockWritten == c.chRead && c.chWritten == c.sockRead)
      && (c.done && !c.broken ==> c.eofAnswers != [] && (c.chEofSent <==> c.eofAnswers[|c.eofAnswers| - 1].Done?))
  {
    t := new Tunnel(listeners);
    w := new World(script);
    var k := 0;
    while k < passes && !t.dead
      invariant fresh(t) && fresh(w) && t.Valid() && |t.accepted| == w.accepts
      invariant forall c :: c in t.accepted ==> fresh(c)
    {
      t.Pass(w);
      k := k + 1;
    }
    t.Close();
  }

  /** A normal end does not imply that the channel's end-of-file went out (see Conn.Pump for
      when it does): here that call would block in the pass that drains both directions. */
  method DoneWithoutChannelEof() returns (c: Conn)
    ensures c.Valid() && c.done && !c.broken && !c.chEofSent
  {
    c := new Conn(true);
    var w := new World([EndOfFile, EndOfFile]);
    var _ := c.Pump(w);
  }
}
