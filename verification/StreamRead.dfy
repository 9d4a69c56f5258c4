/** Routing a hijacked stream to a log consumer that may refuse: chunk by chunk through the
    demultiplexer, over the interleaved pump or a plain read loop. */
module StreamRead {
  import opened Wrappers
  import opened Bytes
  import LogDemux
  import opened Transport
  import DuplexExchange

  datatype Source = Stdout | Stderr
  datatype Item = Item(source: Source, data: seq<byte>)

  /** A log consumer answers each item from everything handed to it so far, this included. */
  type LogConsumer = seq<Item> -> bool

  datatype FollowEnd = StreamEnded | ConsumerStopped | DeadlineExpired

  /** What a consumer received, and whether it accepted all of it. */
  datatype Handed = Handed(items: seq<Item>, ok: bool)

  /** What the consumer sees of a frame list: stdin frames are left out. */
  function Items(frames: seq<LogDemux.Frame>): seq<Item> {
    if frames == [] then []
    else
      (match frames[0].stream
       case StdIn => []
       case StdOut => [Item(Stdout, frames[0].data)]
       case StdErr => [Item(Stderr, frames[0].data)]) + Items(frames[1..])
  }

  /** Everything a chunk list amounts to for the consumer. */
  function AllItems(chunks: seq<seq<byte>>, tty: bool): seq<Item> {
    if tty then seq(|chunks|, i requires 0 <= i < |chunks| => Item(Stdout, chunks[i]))
    else Items(LogDemux.Decode(Concat(chunks)).frames)
  }

  /** Stdin frames are left out, every other frame is an item of its source. */
  lemma ItemsMeaning(frame: LogDemux.Frame, frames: seq<LogDemux.Frame>)
    ensures Items([]) == []
    ensures frame.stream == LogDemux.StdIn ==> Items([frame] + frames) == Items(frames)
    ensures frame.stream == LogDemux.StdOut ==> Items([frame] + frames) == [Item(Stdout, frame.data)] + Items(frames)
    ensures frame.stream == LogDemux.StdErr ==> Items([frame] + frames) == [Item(Stderr, frame.data)] + Items(frames)
  {
    assert ([frame] + frames)[1..] == frames;
  }

  lemma AllItemsMeaning(chunks: seq<seq<byte>>, tty: bool)
    ensures tty ==> |AllItems(chunks, tty)| == |chunks|
    ensures tty ==> forall i :: 0 <= i < |chunks| ==> AllItems(chunks, tty)[i] == Item(Stdout, chunks[i])
    ensures !tty ==> AllItems(chunks, tty) == Items(LogDemux.Decode(Concat(chunks)).frames)
  {
  }

  /** Hands over item by item, up to and including the first one refused. */
  function HandOver(items: seq<Item>, had: seq<Item>, consumer: LogConsumer): Handed
    decreases |items|
  {
    if items == [] then Handed(had, true)
    else
      var now := had + [items[0]];
      if !consumer(now) then Handed(now, false) else HandOver(items[1..], now, consumer)
  }

  /** Handing over, by the consumer's answers: it accepts everything, or refuses the last item it
      is handed; it accepts every item before that, and nothing is left out or added. */
  lemma {:induction false} HandOverMeaning(items: seq<Item>, had: seq<Item>, consumer: LogConsumer)
    ensures var r := HandOver(items, had, consumer);
      && had <= r.items <= had + items
      && (forall k :: |had| < k < |r.items| ==> consumer(r.items[..k]))
      && (r.ok ==> r.items == had + items && (items == [] || consumer(r.items)))
      && (!r.ok ==> |had| < |r.items| && !consumer(r.items))
    decreases |items|
  {
    if items == [] {
    } else {
      var now := had + [items[0]];
      HandOverMeaning(items[1..], now, consumer);
      assert now + items[1..] == had + items;
      var r := HandOver(items[1..], now, consumer);
      assert r.items[..|now|] == now;
    }
  }

  lemma {:induction false} HandOverAppend(a: seq<Item>, b: seq<Item>, had: seq<Item>, consumer: LogConsumer)
    ensures var first := HandOver(a, had, consumer);
      HandOver(a + b, had, consumer) == if first.ok then HandOver(b, first.items, consumer) else first
    decreases |a|
  {
    if a == [] {
      assert a + b == b;
    } else {
      assert (a + b)[1..] == a[1..] + b;
      HandOverAppend(a[1..], b, had + [a[0]], consumer);
    }
  }

  lemma {:induction false} ItemsAppend(a: seq<LogDemux.Frame>, b: seq<LogDemux.Frame>)
    ensures Items(a + b) == Items(a) + Items(b)
    decreases |a|
  {
    if a == [] {
      assert a + b == b;
    } else {
      assert (a + b)[1..] == a[1..] + b;
      ItemsAppend(a[1..], b);
    }
  }

  /** What the consumer has received after a chunk list, on any cut of the same bytes. */
  function Received(chunks: seq<seq<byte>>, tty: bool, consumer: LogConsumer): Handed {
    HandOver(AllItems(chunks, tty), [], consumer)
  }

  /** Routes one chunk. The consumer's history is `had`; false when it asked to stop. */
  method DeliverChunk(demuxer: LogDemux.LogDemuxer, chunk: seq<byte>, tty: bool, consumer: LogConsumer, had: seq<Item>)
    returns (r: Handed)
    requires demuxer.Valid()
    modifies demuxer
    ensures demuxer.Valid()
    ensures tty ==> r == HandOver([Item(Stdout, chunk)], had, consumer)
    ensures !tty ==> demuxer.fed == old(demuxer.fed) + chunk
    ensures !tty ==> r == HandOver(Items(NewFrames(old(demuxer.fed), chunk)), had, consumer)
    // what the consumer was asked, and how it answered
    ensures had <= r.items && forall k :: |had| < k < |r.items| ==> consumer(r.items[..k])
    ensures r.ok ==> r.items == had || consumer(r.items)
    ensures r.ok ==> r.items == had + if tty then [Item(Stdout, chunk)] else Items(NewFrames(old(demuxer.fed), chunk))
    ensures !r.ok ==> |had| < |r.items| && !consumer(r.items)
  {
    HandOverMeaning(if tty then [Item(Stdout, chunk)] else Items(NewFrames(demuxer.fed, chunk)), had, consumer);
    if tty {
      var now := had + [Item(Stdout, chunk)];
      return Handed(now, consumer(now));
    }
    var frames := demuxer.Feed(chunk);
    Cancel(old(demuxer.emitted), frames, NewFrames(old(demuxer.fed), chunk));
    r := DeliverFrames(frames, consumer, had);
  }

  lemma Cancel(prefix: seq<LogDemux.Frame>, a: seq<LogDemux.Frame>, b: seq<LogDemux.Frame>)
    requires prefix + a == prefix + b
    ensures a == b
  {
    assert (prefix + a)[|prefix|..] == a && (prefix + b)[|prefix|..] == b;
  }

  /** Hands the frames over until the consumer refuses one. */
  method DeliverFrames(frames: seq<LogDemux.Frame>, consumer: LogConsumer, had: seq<Item>) returns (r: Handed)
    ensures r == HandOver(Items(frames), had, consumer)
  {
    var items := had;
    assert frames[0..] == frames;
    for i := 0 to |frames|
      invariant HandOver(Items(frames), had, consumer) == HandOver(Items(frames[i..]), items, consumer)
    {
      var frame := frames[i];
      ItemsStep(frames, i);
      if frame.stream.StdIn? {
        continue;
      }
      items := items + [Item(if frame.stream.StdErr? then Stderr else Stdout, frame.data)];
      if !consumer(items) {
        return Handed(items, false);
      }
    }
    return Handed(items, true);
  }

  lemma ItemsStep(frames: seq<LogDemux.Frame>, i: nat)
    requires i < |frames|
    ensures var f := frames[i];
      var rest := Items(frames[i + 1..]);
      if f.stream.StdIn? then Items(frames[i..]) == rest
      else var items := Items(frames[i..]);
           items != [] && items[0] == Item(if f.stream.StdErr? then Stderr else Stdout, f.data) && items[1..] == rest
  {
    assert frames[i..][1..] == frames[i + 1..];
  }

  /** Delivering one more chunk extends what the chunks so far amounted to. */
  lemma DeliveredMore(chunks: seq<seq<byte>>, chunk: seq<byte>, tty: bool, consumer: LogConsumer)
    requires Received(chunks, tty, consumer).ok
    ensures Received(chunks + [chunk], tty, consumer) ==
            HandOver(if tty then [Item(Stdout, chunk)] else Items(NewFrames(Concat(chunks), chunk)),
                     Received(chunks, tty, consumer).items, consumer)
  {
    var frames := NewFrames(Concat(chunks), chunk);
    var more := if tty then [Item(Stdout, chunk)] else Items(frames);
    ConcatSnoc(chunks, chunk);
    ItemsAppend(LogDemux.Decode(Concat(chunks)).frames, frames);
    assert AllItems(chunks + [chunk], tty) == AllItems(chunks, tty) + more;
    HandOverAppend(AllItems(chunks, tty), more, [], consumer);
  }

  lemma ReceivedAll(chunks: seq<seq<byte>>, tty: bool, consumer: LogConsumer)
    ensures var r := Received(chunks, tty, consumer);
      && r.items <= AllItems(chunks, tty)
      && (forall k :: 0 < k < |r.items| ==> consumer(r.items[..k]))
      && (r.ok ==> r.items == AllItems(chunks, tty) && (r.items == [] || consumer(r.items)))
      && (!r.ok ==> r.items != [] && !consumer(r.items))
  {
    HandOverMeaning(AllItems(chunks, tty), [], consumer);
    assert [] + AllItems(chunks, tty) == AllItems(chunks, tty);
  }

  /** The stateful sink of an exchange: a demultiplexer, and a consumer's history. */
  class Sink {
    const tty: bool
    const consumer: LogConsumer
    const demuxer: LogDemux.LogDemuxer
    var items: seq<Item>
    var stopped: bool
    ghost var chunks: seq<seq<byte>>    // every chunk delivered

    ghost predicate Valid()
      reads this, demuxer
    {
      && demuxer.Valid()
      && (!stopped && !tty ==> demuxer.fed == Concat(chunks))
      && Received(chunks, tty, consumer) == Handed(items, !stopped)
    }

    constructor (tty: bool, consumer: LogConsumer)
      ensures Valid() && fresh(demuxer) && chunks == [] && !stopped
      ensures this.tty == tty && this.consumer == consumer
    {
      this.tty, this.consumer := tty, consumer;
      demuxer := new LogDemux.LogDemuxer();
      items, stopped, chunks := [], false, [];
    }

    /** However the stream was cut, the items received and the answer are those of the whole
        input decoded at once. */
    method OnChunk(chunk: seq<byte>) returns (ok: bool)
      requires Valid() && !stopped
      modifies this, demuxer
      ensures Valid() && chunks == old(chunks) + [chunk] && ok == !stopped
      ensures ok == Received(chunks, tty, consumer).ok
      // what the consumer was asked, and how it answered
      ensures old(items) <= items && forall k :: |old(items)| < k < |items| ==> consumer(items[..k])
      ensures ok ==> items == old(items) || consumer(items)
      ensures !ok ==> |old(items)| < |items| && !consumer(items)
      ensures ok ==> items == AllItems(chunks, tty)
    {
      ReceivedAll(chunks + [chunk], tty, consumer);
      hide NewFrames, HandOver, Items, Received, LogDemux.Decode;
      DeliveredMore(chunks, chunk, tty, consumer);
      ConcatSnoc(chunks, chunk);
      var r := DeliverChunk(demuxer, chunk, tty, consumer, items);
      chunks := chunks + [chunk];
      items, stopped := r.items, !r.ok;
      ok := r.ok;
    }
  }

  /** The frames one more chunk completes. */
  ghost function NewFrames(fed: seq<byte>, chunk: seq<byte>): (frames: seq<LogDemux.Frame>)
    ensures LogDemux.Decode(fed + chunk).frames == LogDemux.Decode(fed).frames + frames
  {
    LogDemux.DecodeAppend(fed, chunk);
    LogDemux.Decode(LogDemux.Decode(fed).rest + chunk).frames
  }

  // ----- collecting everything

  /** The bytes of one source, concatenated in order. */
  function Collected(items: seq<Item>, source: Source): seq<byte> {
    if items == [] then []
    else (if items[0].source == source then items[0].data else []) + Collected(items[1..], source)
  }

  lemma {:induction false} CollectedItems(frames: seq<LogDemux.Frame>, stderr: bool)
    ensures Collected(Items(frames), if stderr then Stderr else Stdout)
         == LogDemux.PayloadsOf(frames, if stderr then LogDemux.StdErr else LogDemux.StdOut)
    decreases |frames|
  {
    if frames == [] {
    } else {
      CollectedItems(frames[1..], stderr);
      var rest := Items(frames[1..]);
      if frames[0].stream.StdIn? {
        assert Items(frames) == rest;
      } else {
        var item := Item(if frames[0].stream.StdErr? then Stderr else Stdout, frames[0].data);
        assert Items(frames) == [item] + rest;
        assert ([item] + rest)[1..] == rest;
      }
    }
  }

  /** A consumer that accepts everything collects, however the stream was cut, the same two
      texts as demultiplexing the whole body at once. */
  lemma CollectsLikeDemuxAll(chunks: seq<seq<byte>>, consumer: LogConsumer)
    requires Received(chunks, false, consumer).ok
    ensures var items := Received(chunks, false, consumer).items;
      var frames := LogDemux.Decode(Concat(chunks)).frames;
      LogDemux.DemuxedLogs(Collected(items, Stdout), Collected(items, Stderr)) == LogDemux.Split(frames)
  {
    HandOverMeaning(AllItems(chunks, false), [], consumer);
    assert [] + AllItems(chunks, false) == AllItems(chunks, false);
    CollectedItems(LogDemux.Decode(Concat(chunks)).frames, false);
    CollectedItems(LogDemux.Decode(Concat(chunks)).frames, true);
  }

  // ----- following a stream

  datatype Followed = Followed(end: FollowEnd, items: seq<Item>)

  /** The sink's answer to a chunk, from the chunks so far (see Sink.OnChunk). */
  function Answers(leftover: seq<seq<byte>>, tty: bool, consumer: LogConsumer): Consumer {
    (chunks: seq<seq<byte>>) => Received(leftover + chunks, tty, consumer).ok
  }

  /** Bytes that came with the response header are delivered first, when there are any. */
  function Before(leftover: seq<byte>): seq<seq<byte>> {
    if leftover == [] then [] else [leftover]
  }

  /** What following a read script comes to when no budget is spent; None: it has not ended.
      The interleaved pump (`pumped`) takes an empty successful read for the end and reports
      a cancelled read as a timeout. */
  function Follow(script: seq<Read>, leftover: seq<byte>, tty: bool, consumer: LogConsumer,
                  pumped: bool, hasDeadline: bool): Option<Followed> {
    var first := Received(Before(leftover), tty, consumer);
    if !first.ok then Some(Followed(ConsumerStopped, first.items))
    else
      var reading := ReadOut(script, [], Answers(Before(leftover), tty, consumer), pumped);
      var all := Received(Before(leftover) + reading.delivered, tty, consumer);
      if reading.end.None? then None
      else
        var code := if pumped then DuplexExchange.FinalCode(reading.end.value) else reading.end.value;
        Some(Conclude(all, code, hasDeadline))
  }

  function Conclude(all: Handed, code: ErrorCode, hasDeadline: bool): Followed {
    if !all.ok then Followed(ConsumerStopped, all.items)
    else if code == TimedOut && hasDeadline then Followed(DeadlineExpired, all.items)
    else Followed(StreamEnded, all.items)
  }

  /** The consumer accepted every item before the last it was handed. */
  ghost predicate AcceptedButLast(items: seq<Item>, consumer: LogConsumer) {
    forall k :: 0 < k < |items| ==> consumer(items[..k])
  }

  /** An end, by the consumer's answers and the code that reading ended with. */
  lemma Concluded(arrived: seq<seq<byte>>, tty: bool, consumer: LogConsumer, code: ErrorCode, hasDeadline: bool)
    ensures var all := Received(arrived, tty, consumer);
      var f := Conclude(all, code, hasDeadline);
      && f.items <= AllItems(arrived, tty) && AcceptedButLast(f.items, consumer)
      && (f.end == ConsumerStopped <==> f.items != [] && !consumer(f.items))
      && (f.end == ConsumerStopped <==> !all.ok)
      && (f.end != ConsumerStopped ==> f.items == AllItems(arrived, tty))
      && (f.end != ConsumerStopped ==> (f.end == DeadlineExpired <==> hasDeadline && code == TimedOut))
  {
    ReceivedAll(arrived, tty, consumer);
    hide Received, AllItems;
  }

  /** With the leftover accepted: which of the reads ended the stream, and how. */
  lemma FollowedReads(script: seq<Read>, leftover: seq<byte>, tty: bool, consumer: LogConsumer,
                      pumped: bool, hasDeadline: bool)
    returns (n: nat, code: ErrorCode)
    requires Received(Before(leftover), tty, consumer).ok
    requires Follow(script, leftover, tty, consumer, pumped, hasDeadline).Some?
    ensures 0 < n <= |script| && forall i :: 0 <= i < n - 1 ==> script[i].ec == Success
    ensures var all := Received(Before(leftover) + Chunks(script[..n]), tty, consumer);
      && Follow(script, leftover, tty, consumer, pumped, hasDeadline) == Some(Conclude(all, code, hasDeadline))
      && (all.ok ==> script[n - 1].ec != Success || (pumped && script[n - 1].data == []))
      && (all.ok ==> (code == TimedOut <==>
          script[n - 1].ec == TimedOut || (pumped && script[n - 1].ec == OperationAborted)))
  {
    var answers := Answers(Before(leftover), tty, consumer);
    n := ReadOutExplained(script, [], answers, pumped);
    RefusedOrAccepted(script, [], answers, pumped);
    var reading := ReadOut(script, [], answers, pumped);
    code := if pumped then DuplexExchange.FinalCode(reading.end.value) else reading.end.value;
    assert Before(leftover) + [] == Before(leftover) && [] + Chunks(script[..n]) == Chunks(script[..n]);
    hide ReadOut, Received, Chunks;
    assert answers(reading.delivered) == Received(Before(leftover) + reading.delivered, tty, consumer).ok;
  }

  /** What following comes to, by what arrived and how the consumer answered. The chunks are the
      leftover, if any, and what the first `n` reads brought; the consumer accepted every item
      before the last it was handed, and ConsumerStopped says that it refused that one. Otherwise
      it was handed everything and the last of those reads ended the stream: by a timeout under
      a deadline, or in any other way. */
  lemma FollowMeaning(script: seq<Read>, leftover: seq<byte>, tty: bool, consumer: LogConsumer,
                      pumped: bool, hasDeadline: bool)
    returns (n: nat)
    requires Follow(script, leftover, tty, consumer, pumped, hasDeadline).Some?
    ensures n <= |script| && forall i :: 0 <= i < n - 1 ==> script[i].ec == Success
    ensures var f := Follow(script, leftover, tty, consumer, pumped, hasDeadline).value;
      var arrived := (if leftover == [] then [] else [leftover]) + Chunks(script[..n]);
      && f.items <= AllItems(arrived, tty)
      && (forall k :: 0 < k < |f.items| ==> consumer(f.items[..k]))
      && (f.end == ConsumerStopped <==> f.items != [] && !consumer(f.items))
      && (f.end != ConsumerStopped ==>
          && f.items == AllItems(arrived, tty) && 0 < n
          && (script[n - 1].ec != Success || (pumped && script[n - 1].data == []))
          && (f.end == DeadlineExpired <==>
              hasDeadline && (script[n - 1].ec == TimedOut || (pumped && script[n - 1].ec == OperationAborted))))
  {
    var lead := Before(leftover);
    if !Received(lead, tty, consumer).ok {
      n := 0;
      assert lead + Chunks(script[..0]) == lead;
      ReceivedAll(lead, tty, consumer);
      hide Received, AllItems, Chunks;
    } else {
      var code;
      n, code := FollowedReads(script, leftover, tty, consumer, pumped, hasDeadline);
      Concluded(lead + Chunks(script[..n]), tty, consumer, code, hasDeadline);
      hide Received, AllItems, Chunks, Follow, Conclude;
    }
  }

  function ExecJob(leftover: seq<byte>, stdin: seq<byte>, tty: bool, consumer: LogConsumer,
                   ioTimeout: Option<nat>, deadline: Option<int>): DuplexExchange.Job {
    DuplexExchange.Job(stdin, true, Answers(Before(leftover), tty, consumer), ioTimeout, deadline)
  }

  /** What an interleaved run comes to: decided by the reads up to where it stops. `wedged`
      reports a timeout nobody set a deadline for: the idle guard, or a read that timed out or
      was cancelled. None: the script ended first. */
  ghost predicate Pumped(r: Option<Followed>, wedged: bool, job: DuplexExchange.Job, rounds: seq<DuplexExchange.Round>,
                         leftover: seq<byte>, tty: bool, consumer: LogConsumer)
  {
    var turns := DuplexExchange.Turns(job, rounds);
    var reading := DuplexExchange.ReadingAfter(job, rounds[..turns]);
    var all := Received(Before(leftover) + reading.delivered, tty, consumer);
    var timedOut := reading.end.None? || reading.end == Some(TimedOut) || reading.end == Some(OperationAborted);
    && (r.None? <==> turns == |rounds| && reading.end.None?)
    && (r.Some? && reading.end.None? ==>
        r.value == Followed(if job.deadline.Some? then DeadlineExpired else StreamEnded, all.items))
    && (reading.end.Some? ==>
        r == Follow(DuplexExchange.ReadsOf(rounds[..turns]), leftover, tty, consumer, true, job.deadline.Some?))
    && (wedged <==> r.Some? && all.ok && timedOut && job.deadline.None?)
  }

  /** Exec with stdin: the output read interleaved with the input write. */
  method PumpExecStream(leftover: seq<byte>, stdin: seq<byte>, tty: bool, consumer: LogConsumer,
                        ioTimeout: Option<nat>, deadline: Option<int>, entry: int,
                        rounds: seq<DuplexExchange.Round>, drain: seq<DuplexExchange.Completion>)
    returns (r: Option<Followed>, wedged: bool)
    ensures
      if deadline.Some? && deadline.value <= entry then
        r == Some(Followed(DeadlineExpired, [])) && !wedged
      else if !Received(Before(leftover), tty, consumer).ok then
        r == Some(Followed(ConsumerStopped, Received(Before(leftover), tty, consumer).items)) && !wedged
      else
        var job := ExecJob(leftover, stdin, tty, consumer, ioTimeout, deadline);
        var turns := DuplexExchange.Turns(job, rounds);
        var reading := DuplexExchange.ReadingAfter(job, rounds[..turns]);
        var all := Received(Before(leftover) + reading.delivered, tty, consumer);
        var timedOut := reading.end.None? || reading.end == Some(TimedOut) || reading.end == Some(OperationAborted);
        && (r.None? <==> turns == |rounds| && reading.end.None?)
        && (r.Some? && reading.end.None? ==>
            r.value == Followed(if deadline.Some? then DeadlineExpired else StreamEnded, all.items))
        && (reading.end.Some? ==>
            r == Follow(DuplexExchange.ReadsOf(rounds[..turns]), leftover, tty, consumer, true, deadline.Some?))
        && (wedged <==> r.Some? && r.value.end != ConsumerStopped && timedOut && deadline.None?)
    // by the consumer's own answers
    ensures r.Some? ==>
      && (forall k :: 0 < k < |r.value.items| ==> consumer(r.value.items[..k]))
      && (r.value.end == ConsumerStopped <==> r.value.items != [] && !consumer(r.value.items))
  {
    if deadline.Some? && deadline.value <= entry {
      return Some(Followed(DeadlineExpired, [])), false;
    }
    var job := ExecJob(leftover, stdin, tty, consumer, ioTimeout, deadline);
    ReceivedAll(Before(leftover), tty, consumer);
    hide Received, AllItems, Pumped, Follow;
    r, wedged := PumpLeftover(leftover, job, tty, consumer, rounds, drain);
    if Received(Before(leftover), tty, consumer).ok {
      PumpedMeaning(r, wedged, job, rounds, leftover, tty, consumer);
    }
  }

  /** After the check at entry: the leftover, then the exchange. */
  method PumpLeftover(leftover: seq<byte>, job: DuplexExchange.Job, tty: bool, consumer: LogConsumer,
                      rounds: seq<DuplexExchange.Round>, drain: seq<DuplexExchange.Completion>)
    returns (r: Option<Followed>, wedged: bool)
    requires job.accept == Answers(Before(leftover), tty, consumer)
    ensures var first := Received(Before(leftover), tty, consumer);
      if !first.ok then r == Some(Followed(ConsumerStopped, first.items)) && !wedged
      else Pumped(r, wedged, job, rounds, leftover, tty, consumer)
  {
    hide Pumped;
    var sink := new Sink(tty, consumer);
    assert [] + [leftover] == [leftover];
    if leftover != [] {
      var ok := sink.OnChunk(leftover);
      hide Received;
      if !ok {
        return Some(Followed(ConsumerStopped, sink.items)), false;
      }
    }
    r, wedged := PumpInterleaved(sink, leftover, job, rounds, drain);
  }

  lemma PumpedMeaning(r: Option<Followed>, wedged: bool, job: DuplexExchange.Job, rounds: seq<DuplexExchange.Round>,
                      leftover: seq<byte>, tty: bool, consumer: LogConsumer)
    requires Pumped(r, wedged, job, rounds, leftover, tty, consumer)
    requires job.accept == Answers(Before(leftover), tty, consumer) && Received(Before(leftover), tty, consumer).ok
    ensures var turns := DuplexExchange.Turns(job, rounds);
      var reading := DuplexExchange.ReadingAfter(job, rounds[..turns]);
      var all := Received(Before(leftover) + reading.delivered, tty, consumer);
      var timedOut := reading.end.None? || reading.end == Some(TimedOut) || reading.end == Some(OperationAborted);
      && (r.None? <==> turns == |rounds| && reading.end.None?)
      && (r.Some? && reading.end.None? ==>
          r.value == Followed(if job.deadline.Some? then DeadlineExpired else StreamEnded, all.items))
      && (reading.end.Some? ==>
          r == Follow(DuplexExchange.ReadsOf(rounds[..turns]), leftover, tty, consumer, true, job.deadline.Some?))
      && (wedged <==> r.Some? && r.value.end != ConsumerStopped && timedOut && job.deadline.None?)
    ensures r.Some? ==>
      && (forall k :: 0 < k < |r.value.items| ==> consumer(r.value.items[..k]))
      && (r.value.end == ConsumerStopped <==> r.value.items != [] && !consumer(r.value.items))
  {
    var script := DuplexExchange.ReadsOf(rounds[..DuplexExchange.Turns(job, rounds)]);
    var reading := ReadOut(script, [], job.accept, true);
    PumpAnswers(script, Before(leftover), tty, consumer);
    ReceivedAll(Before(leftover) + reading.delivered, tty, consumer);
    hide Received, ReadOut, AllItems;
  }

  method PumpInterleaved(sink: Sink, leftover: seq<byte>, job: DuplexExchange.Job, rounds: seq<DuplexExchange.Round>,
                         drain: seq<DuplexExchange.Completion>)
    returns (r: Option<Followed>, wedged: bool)
    requires sink.Valid() && !sink.stopped && sink.chunks == Before(leftover)
    requires job.accept == Answers(Before(leftover), sink.tty, sink.consumer)
    modifies sink, sink.demuxer
    ensures Pumped(r, wedged, job, rounds, leftover, sink.tty, sink.consumer)
  {
    hide Received, ReadOut;
    var o := DuplexExchange.Exchange(job, rounds, drain);
    if o.None? {
      return None, false;
    }
    var x := o.value.exchanged;
    ghost var script := DuplexExchange.ReadsOf(rounds[..DuplexExchange.Turns(job, rounds)]);
    PumpAnswers(script, Before(leftover), sink.tty, sink.consumer);
    HandChunks(sink, Before(leftover), x.delivered);
    if sink.stopped {
      return Some(Followed(ConsumerStopped, sink.items)), false;
    }
    if x.ec == TimedOut {
      if job.deadline.Some? {
        return Some(Followed(DeadlineExpired, sink.items)), false;
      }
      return Some(Followed(StreamEnded, sink.items)), true;
    }
    return Some(Followed(StreamEnded, sink.items)), false;
  }

  /** The answers an interleaved run went by: all chunks but the last were accepted, and the
      last unless the run ended there with a refusal. */
  lemma PumpAnswers(script: seq<Read>, before: seq<seq<byte>>, tty: bool, consumer: LogConsumer)
    requires Received(before, tty, consumer).ok
    ensures var answers := Answers(before, tty, consumer);
      var reading := ReadOut(script, [], answers, true);
      && (forall k :: 0 < k < |reading.delivered| ==> answers(reading.delivered[..k]))
      && (reading.end == Some(Success) <==> !Received(before + reading.delivered, tty, consumer).ok)
  {
    hide Received, ReadOut;
    var answers := Answers(before, tty, consumer);
    RefusedOrAccepted(script, [], answers, true);
    assert before + [] == before;
    forall k | 0 < k < |ReadOut(script, [], answers, true).delivered|
      ensures answers(ReadOut(script, [], answers, true).delivered[..k])
    {
      AcceptedBefore(script, [], answers, true, k);
    }
  }

  /** The exchange's calls of its consumer, on the real sink: it gives the answers the
      exchange went by, and ends up with what the chunks amount to. */
  method HandChunks(sink: Sink, before: seq<seq<byte>>, chunks: seq<seq<byte>>)
    requires sink.Valid() && !sink.stopped && sink.chunks == before
    requires forall k :: 0 < k < |chunks| ==> Answers(before, sink.tty, sink.consumer)(chunks[..k])
    modifies sink, sink.demuxer
    ensures sink.Valid() && sink.chunks == before + chunks
    ensures Handed(sink.items, !sink.stopped) == Received(before + chunks, sink.tty, sink.consumer)
  {
    hide Received;
    assert before + [] == before;
    for i := 0 to |chunks|
      invariant sink.Valid() && sink.chunks == before + chunks[..i]
      invariant i < |chunks| ==> !sink.stopped
    {
      assert before + chunks[..i + 1] == (before + chunks[..i]) + [chunks[i]];
      var ok := sink.OnChunk(chunks[i]);
    }
    assert chunks[..|chunks|] == chunks;
  }

  /** What following comes to when every read must begin before the deadline. */
  function FollowInTime(timed: seq<TimedRead>, leftover: seq<byte>, tty: bool, consumer: LogConsumer,
                        deadline: Option<int>): Option<Followed> {
    var on := InTime(timed, deadline);
    var f := Follow(ReadsIn(on), leftover, tty, consumer, false, deadline.Some?);
    if f.Some? then f
    else if |on| == |timed| then None
    else
      var delivered := ReadOut(ReadsIn(on), [], Answers(Before(leftover), tty, consumer), false).delivered;
      Some(Followed(DeadlineExpired, Received(Before(leftover) + delivered, tty, consumer).items))
  }

  /** What a plain read loop comes to, by what had arrived after `n` reads, how the consumer
      answered, and why the last of them was the last. */
  ghost predicate EndsAfter(f: Followed, n: nat, timed: seq<TimedRead>, arrived: seq<Item>, consumer: LogConsumer,
                            deadline: Option<int>)
  {
    && n <= |timed| && AcceptedButLast(f.items, consumer)
    && (f.end == ConsumerStopped <==> f.items != [] && !consumer(f.items))
    && (f.end != ConsumerStopped ==> f.items == arrived)
    && (f.end == StreamEnded ==> 0 < n && timed[n - 1].read.ec != Success)
    && (f.end == DeadlineExpired ==> deadline.Some?)
    && (f.end == DeadlineExpired ==>
        || (n < |timed| && deadline.value <= timed[n].now)
        || (0 < n && timed[n - 1].read.ec == TimedOut))
  }

  lemma EndsAfterSome(timed: seq<TimedRead>, leftover: seq<byte>, tty: bool, consumer: LogConsumer,
                            deadline: Option<int>)
    returns (n: nat)
    requires FollowInTime(timed, leftover, tty, consumer, deadline).Some?
    ensures n <= |timed|
    ensures var r := FollowInTime(timed, leftover, tty, consumer, deadline);
      EndsAfter(r.value, n, timed, AllItems(Before(leftover) + Chunks(ReadsIn(timed[..n])), tty), consumer, deadline)
  {
    var on := InTime(timed, deadline);
    if Follow(ReadsIn(on), leftover, tty, consumer, false, deadline.Some?).Some? {
      n := EndsInTime(timed, leftover, tty, consumer, deadline);
    } else {
      n := |on|;
      assert timed[..n] == on;
      ExpiredReads(ReadsIn(on), leftover, tty, consumer, deadline.Some?);
      hide ReadsIn, InTime, Follow, Chunks, AllItems, ReadOut, Received;
    }
  }

  lemma EndsInTime(timed: seq<TimedRead>, leftover: seq<byte>, tty: bool, consumer: LogConsumer, deadline: Option<int>)
    returns (n: nat)
    requires Follow(ReadsIn(InTime(timed, deadline)), leftover, tty, consumer, false, deadline.Some?).Some?
    ensures n <= |timed|
    ensures var f := FollowInTime(timed, leftover, tty, consumer, deadline);
      && f.Some?
      && EndsAfter(f.value, n, timed, AllItems(Before(leftover) + Chunks(ReadsIn(timed[..n])), tty), consumer, deadline)
  {
    hide ReadsIn, InTime, Follow, Chunks, AllItems, Received, ReadOut;
    var script := ReadsIn(InTime(timed, deadline));
    n := FollowMeaning(script, leftover, tty, consumer, false, deadline.Some?);
    InTimePrefix(timed, deadline, n);
    hide FollowInTime;
    FollowedInTime(timed, leftover, tty, consumer, deadline);
  }

  lemma FollowedInTime(timed: seq<TimedRead>, leftover: seq<byte>, tty: bool, consumer: LogConsumer,
                       deadline: Option<int>)
    ensures var f := Follow(ReadsIn(InTime(timed, deadline)), leftover, tty, consumer, false, deadline.Some?);
      f.Some? ==> FollowInTime(timed, leftover, tty, consumer, deadline) == f
  {
  }

  lemma InTimePrefix(timed: seq<TimedRead>, deadline: Option<int>, n: nat)
    requires n <= |InTime(timed, deadline)|
    ensures ReadsIn(InTime(timed, deadline))[..n] == ReadsIn(timed[..n])
    ensures 0 < n ==> ReadsIn(InTime(timed, deadline))[n - 1] == timed[n - 1].read
  {
  }

  /** If the consumer never refused, it was handed everything that had arrived after some read,
      which was the last because it brought the end or a timeout, or the next one came too late. */
  lemma FollowInTimeMeaning(timed: seq<TimedRead>, leftover: seq<byte>, tty: bool, consumer: LogConsumer,
                            deadline: Option<int>)
    returns (n: nat)
    requires FollowInTime(timed, leftover, tty, consumer, deadline).Some?
    ensures n <= |timed|
    ensures var f := FollowInTime(timed, leftover, tty, consumer, deadline).value;
      var arrived := (if leftover == [] then [] else [leftover]) + Chunks(ReadsIn(timed[..n]));
      && (forall k :: 0 < k < |f.items| ==> consumer(f.items[..k]))
      && (f.end == ConsumerStopped <==> f.items != [] && !consumer(f.items))
      && (f.end != ConsumerStopped ==> f.items == AllItems(arrived, tty))
      && (f.end == StreamEnded ==> 0 < n && timed[n - 1].read.ec != Success)
      && (f.end == DeadlineExpired ==> deadline.Some?)
      && (f.end == DeadlineExpired ==>
          || (n < |timed| && deadline.value <= timed[n].now)
          || (0 < n && timed[n - 1].read.ec == TimedOut))
  {
    n := EndsAfterSome(timed, leftover, tty, consumer, deadline);
    hide FollowInTime, AllItems, Chunks, ReadsIn;
  }

  /** Reading goes on, and so far the consumer has accepted everything. */
  lemma ExpiredReads(script: seq<Read>, leftover: seq<byte>, tty: bool, consumer: LogConsumer, hasDeadline: bool)
    requires Follow(script, leftover, tty, consumer, false, hasDeadline).None?
    ensures var delivered := ReadOut(script, [], Answers(Before(leftover), tty, consumer), false).delivered;
      var all := Received(Before(leftover) + delivered, tty, consumer);
      && delivered == Chunks(script) && all.items == AllItems(Before(leftover) + Chunks(script), tty)
      && AcceptedButLast(all.items, consumer) && (all.items == [] || consumer(all.items))
  {
    var answers := Answers(Before(leftover), tty, consumer);
    var n := ReadOutExplained(script, [], answers, false);
    assert script[..n] == script && [] + Chunks(script) == Chunks(script);
    RefusedOrAccepted(script, [], answers, false);
    assert Before(leftover) + [] == Before(leftover);
    ReceivedAll(Before(leftover) + Chunks(script), tty, consumer);
    hide ReadOut, Received, Chunks, AllItems;
  }

  /** Exec without stdin, or an attach: a plain read loop over the real, stateful sink. None:
      the script ended first. */
  method StreamRawToConsumer(leftover: seq<byte>, tty: bool, consumer: LogConsumer, deadline: Option<int>, entry: int,
                             timed: seq<TimedRead>)
    returns (r: Option<Followed>)
    ensures r == if deadline.Some? && deadline.value <= entry then Some(Followed(DeadlineExpired, []))
                 else FollowInTime(timed, leftover, tty, consumer, deadline)
    // by the consumer's own answers
    ensures r.Some? ==>
      && (forall k :: 0 < k < |r.value.items| ==> consumer(r.value.items[..k]))
      && (r.value.end == ConsumerStopped <==> r.value.items != [] && !consumer(r.value.items))
  {
    if deadline.Some? && deadline.value <= entry {
      return Some(Followed(DeadlineExpired, []));
    }
    r := FollowRaw(leftover, tty, consumer, deadline, timed);
    if r.Some? {
      ghost var n := EndsAfterSome(timed, leftover, tty, consumer, deadline);
      hide FollowInTime, AllItems, Chunks, ReadsIn;
    }
  }

  /** After the check at entry: the leftover, then the reads. */
  method FollowRaw(leftover: seq<byte>, tty: bool, consumer: LogConsumer, deadline: Option<int>, timed: seq<TimedRead>)
    returns (r: Option<Followed>)
    ensures r == FollowInTime(timed, leftover, tty, consumer, deadline)
  {
    var sink := new Sink(tty, consumer);
    if leftover != [] {
      var ok := sink.OnChunk(leftover);
      assert [] + [leftover] == Before(leftover);
      if !ok {
        return Some(Followed(ConsumerStopped, sink.items));
      }
    }
    r := ReadLoop(sink, leftover, deadline, timed);
  }

  method ReadLoop(sink: Sink, leftover: seq<byte>, deadline: Option<int>, timed: seq<TimedRead>)
    returns (r: Option<Followed>)
    requires sink.Valid() && !sink.stopped && sink.chunks == Before(leftover)
    modifies sink, sink.demuxer
    ensures r == FollowInTime(timed, leftover, sink.tty, sink.consumer, deadline)
  {
    hide ReadOut, Received, ReadsIn, Follow, InTime;
    ghost var answers := Answers(Before(leftover), sink.tty, sink.consumer);
    ghost var delivered: seq<seq<byte>> := [];
    ghost var on := InTime(timed, deadline);
    ghost var whole := ReadOut(ReadsIn(on), [], answers, false);
    FollowFirst(ReadsIn(on), leftover, sink.tty, sink.consumer, deadline.Some?);
    assert timed[0..] == timed && Before(leftover) + delivered == Before(leftover);
    for i := 0 to |timed|
      invariant sink.Valid() && !sink.stopped && sink.chunks == Before(leftover) + delivered
      invariant whole == ReadOut(ReadsIn(InTime(timed[i..], deadline)), delivered, answers, false)
      invariant |on| == i + |InTime(timed[i..], deadline)|
    {
      TimedStep(timed, i, deadline);
      ReadNext(InTime(timed[i..], deadline), delivered, answers);
      if deadline.Some? && deadline.value <= timed[i].now {
        return Some(Followed(DeadlineExpired, sink.items));
      }
      ExtendBehind(Before(leftover), delivered, timed[i].read.data);
      delivered := Extend(delivered, timed[i].read.data);
      var more := ReadOne(sink, timed[i].read, deadline.Some?);
      assert answers(delivered) == Received(sink.chunks, sink.tty, sink.consumer).ok;
      if more.Some? {
        return more;
      }
    }
    NothingLeft(timed, deadline, delivered, answers);
    return None;
  }

  lemma NothingLeft(timed: seq<TimedRead>, deadline: Option<int>, had: seq<seq<byte>>, accept: Consumer)
    ensures InTime(timed[|timed|..], deadline) == []
    ensures ReadOut(ReadsIn([]), had, accept, false) == Reading(had, None)
  {
  }

  function Extend(chunks: seq<seq<byte>>, data: seq<byte>): seq<seq<byte>> {
    if data == [] then chunks else chunks + [data]
  }

  lemma ExtendBehind(a: seq<seq<byte>>, b: seq<seq<byte>>, data: seq<byte>)
    ensures Extend(a + b, data) == a + Extend(b, data)
  {
  }

  /** Delivers one read; Some when following is over. */
  method ReadOne(sink: Sink, read: Read, hasDeadline: bool) returns (r: Option<Followed>)
    requires sink.Valid() && !sink.stopped
    modifies sink, sink.demuxer
    ensures sink.Valid() && sink.chunks == Extend(old(sink.chunks), read.data)
    ensures var all := Received(sink.chunks, sink.tty, sink.consumer);
      && all == Handed(sink.items, !sink.stopped)
      && (sink.stopped ==> read.data != [])
      && (r.None? <==> all.ok && read.ec == Success)
      && (r.Some? ==> r.value == Conclude(all, if all.ok then read.ec else Success, hasDeadline))
  {
    hide Received;
    if read.data != [] {
      var ok := sink.OnChunk(read.data);
      if !ok {
        return Some(Followed(ConsumerStopped, sink.items));
      }
    }
    if read.ec == TimedOut && hasDeadline {
      return Some(Followed(DeadlineExpired, sink.items));
    }
    if read.ec != Success {
      return Some(Followed(StreamEnded, sink.items));
    }
    return None;
  }

  /** With the leftover accepted, following is concluded from the reading. */
  lemma FollowFirst(script: seq<Read>, leftover: seq<byte>, tty: bool, consumer: LogConsumer, hasDeadline: bool)
    requires Received(Before(leftover), tty, consumer).ok
    ensures var reading := ReadOut(script, [], Answers(Before(leftover), tty, consumer), false);
      Follow(script, leftover, tty, consumer, false, hasDeadline) ==
      if reading.end.None? then None
      else Some(Conclude(Received(Before(leftover) + reading.delivered, tty, consumer), reading.end.value, hasDeadline))
  {
  }

  /** One read off the front of the script, or none left. */
  lemma ReadNext(on: seq<TimedRead>, had: seq<seq<byte>>, accept: Consumer)
    ensures ReadOut(ReadsIn(on), had, accept, false) ==
      if on == [] then Reading(had, None)
      else
        var r := on[0].read;
        var now := Extend(had, r.data);
        if r.data != [] && !accept(now) then Reading(now, Some(Success))
        else if r.ec != Success then Reading(now, Some(r.ec))
        else ReadOut(ReadsIn(on)[1..], now, accept, false)
  {
  }

  /** Reading ends in a cancellation, with a deadline that this is reported as. */
  predicate CancelledUnderDeadline(script: seq<Read>, leftover: seq<byte>, tty: bool, consumer: LogConsumer,
                                   hasDeadline: bool)
  {
    && hasDeadline && Received(Before(leftover), tty, consumer).ok
    && ReadOut(script, [], Answers(Before(leftover), tty, consumer), true).end == Some(OperationAborted)
  }

  /** With or without stdin, the same read completions hand the same items over and are followed
      to the same end, half-closes included; exactly a cancelled read under a deadline is the
      deadline's end to the one and the stream's end to the other. */
  lemma FollowsAgree(script: seq<Read>, leftover: seq<byte>, tty: bool, consumer: LogConsumer, hasDeadline: bool)
    ensures var interleaved := Follow(script, leftover, tty, consumer, true, hasDeadline);
      var plain := Follow(MappedAll(script), leftover, tty, consumer, false, hasDeadline);
      && (interleaved.Some? <==> plain.Some?)
      && (interleaved.Some? ==> interleaved.value.items == plain.value.items)
      && (interleaved == plain <==> !CancelledUnderDeadline(script, leftover, tty, consumer, hasDeadline))
  {
    var answers := Answers(Before(leftover), tty, consumer);
    MappedReadsAgree(script, [], answers);
    RefusedOrAccepted(script, [], answers, true);
    hide ReadOut, Received;
    assert Before(leftover) + [] == Before(leftover);
  }
}
