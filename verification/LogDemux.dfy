/** The multiplexed log stream: 8-byte headers, and a demuxer that may be fed the stream
    cut anywhere. */
module LogDemux {
  import opened Wrappers
  import opened Bytes

  datatype Stream = StdIn | StdOut | StdErr
  datatype Frame = Frame(stream: Stream, data: seq<byte>)
  datatype Decoded = Decoded(frames: seq<Frame>, rest: seq<byte>)

  const HEADER_SIZE := 8
  const COMPACT_AT := 65536

  /** Unknown stream bytes count as stdout. */
  function StreamFromByte(b: byte): Stream {
    if b == 0 then StdIn else if b == 2 then StdErr else StdOut
  }

  /** The big-endian length in header bytes 4..7. */
  function PayloadLength(h: seq<byte>): (n: nat)
    requires HEADER_SIZE <= |h|
  {
    h[4] as int * 0x100_0000 + h[5] as int * 0x1_0000 + h[6] as int * 0x100 + h[7] as int
  }

  /** The reference decoder over a whole input: complete frames, and the undecoded rest. */
  function Decode(b: seq<byte>): (d: Decoded)
    decreases |b|
  {
    if |b| < HEADER_SIZE || |b| < HEADER_SIZE + PayloadLength(b) then Decoded([], b)
    else
      var n := HEADER_SIZE + PayloadLength(b);
      var more := Decode(b[n..]);
      Decoded([Frame(StreamFromByte(b[0]), b[HEADER_SIZE..n])] + more.frames, more.rest)
  }

  /** A complete frame in front is taken off. */
  lemma DecodeStep(rest: seq<byte>)
    requires HEADER_SIZE <= |rest| && HEADER_SIZE + PayloadLength(rest) <= |rest|
    ensures var n := HEADER_SIZE + PayloadLength(rest);
      var d := Decode(rest[n..]);
      Decode(rest) == Decoded([Frame(StreamFromByte(rest[0]), rest[HEADER_SIZE..n])] + d.frames, d.rest)
  {
  }

  /** What a frame is, byte by byte: the stream by the first, the next three ignored, then the
      payload's length with its most significant byte first. */
  lemma FrameDecoded(t: byte, pad: seq<byte>, l3: byte, l2: byte, l1: byte, l0: byte,
                     payload: seq<byte>, rest: seq<byte>)
    requires |pad| == 3 && |payload| == l3 as int * 16777216 + l2 as int * 65536 + l1 as int * 256 + l0
    ensures var stream := if t == 0 then StdIn else if t == 2 then StdErr else StdOut;
      var d := Decode(rest);
      Decode([t] + pad + [l3, l2, l1, l0] + payload + rest) == Decoded([Frame(stream, payload)] + d.frames, d.rest)
  {
    var head := [t] + pad + [l3, l2, l1, l0];
    var b := head + payload + rest;
    assert b[..8] == head && b[8..8 + |payload|] == payload && b[8 + |payload|..] == rest;
    assert b[0] == t && b[4] == l3 && b[5] == l2 && b[6] == l1 && b[7] == l0;
    hide Decode;
    DecodeStep(b);
  }

  /** Less than a header, or than its payload, is no frame yet. */
  lemma PartialUndecoded(b: seq<byte>)
    ensures |b| < 8 ==> Decode(b) == Decoded([], b)
    ensures 8 <= |b| && |b| - 8 < b[4] as int * 16777216 + b[5] as int * 65536 + b[6] as int * 256 + b[7] ==>
      Decode(b) == Decoded([], b)
  {
  }

  lemma SameHeader(a: seq<byte>, b: seq<byte>)
    requires HEADER_SIZE <= |a|
    ensures PayloadLength(a + b) == PayloadLength(a) && (a + b)[0] == a[0]
  {
  }

  /** Decoding can stop anywhere and resume with the undecoded rest. */
  lemma {:induction false} DecodeAppend(a: seq<byte>, b: seq<byte>)
    ensures Decode(a + b).frames == Decode(a).frames + Decode(Decode(a).rest + b).frames
    ensures Decode(a + b).rest == Decode(Decode(a).rest + b).rest
    decreases |a|
  {
    if |a| < HEADER_SIZE || |a| < HEADER_SIZE + PayloadLength(a) {
      assert Decode(a) == Decoded([], a);
    } else {
      SameHeader(a, b);
      DecodeStep(a);
      DecodeStep(a + b);
      hide Decode, PayloadLength;
      var n := HEADER_SIZE + PayloadLength(a);
      assert (a + b)[n..] == a[n..] + b && (a + b)[HEADER_SIZE..n] == a[HEADER_SIZE..n];
      DecodeAppend(a[n..], b);
    }
  }

  // ----- encoding

  function StreamByte(s: Stream): byte {
    match s case StdIn => 0 case StdOut => 1 case StdErr => 2
  }

  function BigEndian32(n: nat): (b: seq<byte>)
    requires n < 0x1_0000_0000
    ensures |b| == 4
  {
    [n / 0x100_0000, n / 0x1_0000 % 0x100, n / 0x100 % 0x100, n % 0x100]
  }

  /** Frames the daemon can send: the length field has 32 bits. */
  predicate Encodable(fs: seq<Frame>) {
    forall f :: f in fs ==> |f.data| < 0x1_0000_0000
  }

  function Encode(fs: seq<Frame>): seq<byte>
    requires Encodable(fs)
  {
    if fs == [] then []
    else [StreamByte(fs[0].stream), 0, 0, 0] + BigEndian32(|fs[0].data|) + fs[0].data + Encode(fs[1..])
  }

  /** Decoding an encoded frame list, followed by anything undecodable, returns the list. */
  lemma {:induction false} DecodeEncode(fs: seq<Frame>, partial: seq<byte>)
    requires Encodable(fs) && Decode(partial) == Decoded([], partial)
    ensures Decode(Encode(fs) + partial) == Decoded(fs, partial)
    decreases |fs|
  {
    if fs == [] {
      assert Encode(fs) + partial == partial;
    } else {
      var f, tail := fs[0], Encode(fs[1..]) + partial;
      var head := [StreamByte(f.stream), 0, 0, 0] + BigEndian32(|f.data|);
      assert Encode(fs) + partial == head + f.data + tail;
      DecodeEncodeEntry(f, head, tail);
      DecodeEncode(fs[1..], partial);
    }
  }

  lemma DecodeEncodeEntry(f: Frame, head: seq<byte>, tail: seq<byte>)
    requires |f.data| < 0x1_0000_0000
    requires head == [StreamByte(f.stream), 0, 0, 0] + BigEndian32(|f.data|)
    ensures Decode(head + f.data + tail) == Decoded([f] + Decode(tail).frames, Decode(tail).rest)
  {
    HeaderLength(f, head);
    var b := head + f.data + tail;
    assert b == head + (f.data + tail);
    SameHeader(head, f.data + tail);
    var n := HEADER_SIZE + |f.data|;
    assert b[n..] == tail && b[HEADER_SIZE..n] == f.data;
    DecodeStep(b);
  }

  lemma HeaderLength(f: Frame, head: seq<byte>)
    requires |f.data| < 0x1_0000_0000
    requires head == [StreamByte(f.stream), 0, 0, 0] + BigEndian32(|f.data|)
    ensures PayloadLength(head) == |f.data| && StreamFromByte(head[0]) == f.stream
  {
    DigitsOf(|f.data|);
  }

  /** Four base-256 digits make up the number again. */
  lemma DigitsOf(n: nat)
    requires n < 0x1_0000_0000
    ensures n / 0x100_0000 * 0x100_0000 + n / 0x1_0000 % 0x100 * 0x1_0000 + n / 0x100 % 0x100 * 0x100 + n % 0x100 == n
  {
    var a, b := n / 0x100, n / 0x1_0000;
    DivDiv(n, 0x100);
    DivDiv(n, 0x1_0000);
    assert n == a * 0x100 + n % 0x100;
    assert a == b * 0x100 + a % 0x100;
    assert b == n / 0x100_0000 * 0x100 + b % 0x100;
  }

  lemma DivDiv(n: nat, c: nat)
    requires c == 0x100 || c == 0x1_0000
    ensures c == 0x100 ==> n / 0x100 / 0x100 == n / 0x1_0000
    ensures c == 0x1_0000 ==> n / 0x1_0000 / 0x100 == n / 0x100_0000
  {
  }

  // ----- the incremental demuxer

  lemma PayloadInBuffer(rest: seq<byte>, pending: seq<byte>, start: nat, n: nat)
    requires HEADER_SIZE <= |rest| && start <= |pending| && n <= |pending| - start
    requires rest[HEADER_SIZE..] == pending[start..]
    ensures HEADER_SIZE + n <= |rest|
    ensures rest[HEADER_SIZE..HEADER_SIZE + n] == pending[start..start + n]
    ensures rest[HEADER_SIZE + n..] == pending[start + n..]
  {
    var tail := rest[HEADER_SIZE..];
    assert rest[HEADER_SIZE..HEADER_SIZE + n] == tail[..n] && pending[start..start + n] == pending[start..][..n];
    assert rest[HEADER_SIZE + n..] == tail[n..] && pending[start + n..] == pending[start..][n..];
  }

  /** Per fed byte, how often compaction has moved it: never twice, and not yet at all from
      index `from` on. */
  ghost predicate MovedOnce(moves: seq<nat>, from: int) {
    forall i {:trigger moves[i]} :: 0 <= i < |moves| ==> moves[i] <= (if from <= i then 0 else 1)
  }

  lemma MovedOnceGrows(moves: seq<nat>, n: nat, from: int)
    requires MovedOnce(moves, from)
    ensures MovedOnce(moves + seq(n, _ => 0), from)
  {
  }

  lemma MovesBounded(moves: seq<nat>, from: int)
    requires MovedOnce(moves, from)
    ensures Sum(moves) <= |moves|
  {
    SumBounded(moves, 1);
  }

  /** Every byte from `dead` on is moved once more. */
  function Moved(moves: seq<nat>, dead: nat): (after: seq<nat>)
    requires dead <= |moves|
    ensures |after| == |moves|
  {
    seq(|moves|, k requires 0 <= k < |moves| => if k < dead then moves[k] else moves[k] + 1)
  }

  lemma MovedEach(moves: seq<nat>, dead: nat)
    requires dead <= |moves| && MovedOnce(moves, dead)
    ensures var after := Moved(moves, dead);
      && after[..dead] == moves[..dead] && MovedOnce(after, |moves|)
      && forall k :: dead <= k < |moves| ==> moves[k] == 0 && after[k] == 1
  {
  }

  lemma SumsOfParts(moves: seq<nat>, dead: nat, each: nat)
    requires dead <= |moves| && forall k :: dead <= k < |moves| ==> moves[k] == each
    ensures Sum(moves) == Sum(moves[..dead]) + each * (|moves| - dead)
  {
    assert moves == moves[..dead] + moves[dead..];
    SumAppend(moves[..dead], moves[dead..]);
    SumConstant(moves[dead..], each);
  }

  /** Moving the live bytes, none of which had moved before, costs one move for each of them and
      leaves no byte moved twice. */
  lemma MoveLive(moves: seq<nat>, dead: nat)
    requires dead <= |moves| && MovedOnce(moves, dead)
    ensures MovedOnce(Moved(moves, dead), |moves|)
    ensures Sum(Moved(moves, dead)) == Sum(moves) + (|moves| - dead)
  {
    var after := Moved(moves, dead);
    MovedEach(moves, dead);
    hide Moved;
    SumsOfParts(moves, dead, 0);
    SumsOfParts(after, dead, 1);
  }

  class LogDemuxer {
    var pending: seq<byte>    // buffered bytes; unconsumed from `start` on
    var start: nat
    var haveHeader: bool
    var stream: Stream
    var payloadLen: nat

    ghost var fed: seq<byte>        // everything ever fed
    ghost var emitted: seq<Frame>   // everything ever returned
    ghost var rest: seq<byte>       // the part of `fed` after the emitted frames
    ghost var moves: seq<nat>       // per fed byte: how often compaction moved it

    ghost function Live(): int
      reads this
    {
      |pending| - start
    }

    /** How many bytes the demuxer waits for before it can consume anything more. */
    ghost function Awaited(): nat
      reads this
    {
      if haveHeader then payloadLen else HEADER_SIZE
    }

    /** The live bytes are the undecoded rest, short of a header already parsed from it. */
    ghost predicate Buffered()
      reads this
    {
      && start <= |pending| && Live() <= |fed| == |moves|
      && (!haveHeader ==> rest == pending[start..])
      && (haveHeader ==> && HEADER_SIZE <= |rest| && rest[HEADER_SIZE..] == pending[start..]
                         && stream == StreamFromByte(rest[0]) && payloadLen == PayloadLength(rest))
    }

    /** The bytes moved so far lie before the live ones or in the item awaited right now. */
    ghost predicate CompactedOnce()
      reads this
    {
      MovedOnce(moves, |fed| - Live() + (if 0 < start then 0 else Awaited()))
    }

    /** Between feeds: exactly the complete frames have been emitted, what is live is an
        incomplete item, and the dead prefix is small and no longer than the live suffix. */
    ghost predicate Valid()
      reads this
    {
      && Buffered() && CompactedOnce() && Live() < Awaited()
      && Decode(fed) == Decoded(emitted, rest)
      && start <= COMPACT_AT && start <= Live()
    }

    constructor ()
      ensures Valid() && fed == [] && emitted == [] && rest == []
    {
      pending, start, haveHeader, stream, payloadLen := [], 0, false, StdOut, 0;
      fed, emitted, rest, moves := [], [], [], [];
    }

    /** Returns exactly the frames that the input so far completes. */
    method Feed(chunk: seq<byte>) returns (frames: seq<Frame>)
      requires Valid()
      modifies this
      ensures Valid()
      ensures fed == old(fed) + chunk
      ensures emitted == old(emitted) + frames
      ensures Sum(moves) <= |fed|
      ensures start <= 65536 && start <= |pending| - start
    {
      hide Decode, MovedOnce, PayloadLength, StreamFromByte, Sum;
      DecodeAppend(fed, chunk);
      Append(chunk);
      frames := TakeFrames();
      assert Decode(fed) == Decoded(emitted + frames, rest);
      emitted := emitted + frames;
      CompactIfLarge();
      MovesBounded(moves, |fed| - Live() + (if 0 < start then 0 else Awaited()));
    }

    method CompactIfLarge()
      requires Buffered() && CompactedOnce() && Live() < Awaited()
      modifies `pending, `start, `moves
      ensures Buffered() && CompactedOnce() && Live() == old(Live())
      ensures start <= COMPACT_AT && start <= Live()
    {
      if COMPACT_AT < start || start * 2 > |pending| {
        Compact();
      }
    }

    method Append(chunk: seq<byte>)
      requires Buffered() && CompactedOnce()
      modifies `pending, `fed, `rest, `moves
      ensures Buffered() && CompactedOnce()
      ensures fed == old(fed) + chunk && rest == old(rest) + chunk
    {
      MovedOnceGrows(moves, |chunk|, |fed| - Live() + (if 0 < start then 0 else Awaited()));
      assert (pending + chunk)[start..] == pending[start..] + chunk;
      if haveHeader {
        SameHeader(rest, chunk);
        assert (rest + chunk)[HEADER_SIZE..] == rest[HEADER_SIZE..] + chunk;
      }
      hide PayloadLength, StreamFromByte;
      pending := pending + chunk;
      fed, rest := fed + chunk, rest + chunk;
      moves := moves + seq(|chunk|, _ => 0);
    }

    /** Consumes every frame that is complete. */
    method TakeFrames() returns (frames: seq<Frame>)
      requires Buffered() && CompactedOnce()
      modifies `start, `haveHeader, `stream, `payloadLen, `rest
      ensures Buffered() && CompactedOnce() && Live() < Awaited()
      ensures Decode(old(rest)) == Decoded(frames, rest)
    {
      frames := [];
      ghost var whole := Decode(rest);
      while true
        invariant Buffered() && CompactedOnce()
        invariant Decode(rest).rest == whole.rest && frames + Decode(rest).frames == whole.frames
        decreases Live() + (if haveHeader then 1 else 0)
      {
        var frame := TakeFrame();
        if frame.None? {
          assert frames + [] == frames;
          break;
        }
        Shift(frames, frame.value, Decode(rest).frames);
        frames := frames + [frame.value];
      }
    }

    /** Consumes one header and payload if both are buffered; a header alone is remembered. */
    method TakeFrame() returns (r: Option<Frame>)
      requires Buffered() && CompactedOnce()
      modifies `start, `haveHeader, `stream, `payloadLen, `rest
      ensures Buffered() && CompactedOnce()
      ensures r.None? ==> rest == old(rest) && Live() < Awaited() && Decode(rest) == Decoded([], rest)
      ensures r.Some? ==> Live() < old(Live() + (if haveHeader then 1 else 0)) && !haveHeader
      ensures r.Some? ==> Decode(old(rest)) == Decoded([r.value] + Decode(rest).frames, Decode(rest).rest)
    {
      if !haveHeader {
        if |pending| - start < HEADER_SIZE {
          return None;
        }
        ReadHeader();
      }
      if |pending| - start < payloadLen {
        return None;
      }
      var frame := TakePayload();
      r := Some(frame);
    }

    method ReadHeader()
      requires Buffered() && CompactedOnce() && !haveHeader && HEADER_SIZE <= Live()
      modifies `start, `haveHeader, `stream, `payloadLen
      ensures Buffered() && CompactedOnce() && haveHeader && start == old(start) + HEADER_SIZE
    {
      stream := StreamFromByte(pending[start]);
      payloadLen := PayloadLength(pending[start..]);
      haveHeader := true;
      start := start + HEADER_SIZE;
      assert rest[HEADER_SIZE..] == pending[start..];
    }

    method TakePayload() returns (frame: Frame)
      requires Buffered() && CompactedOnce() && haveHeader && payloadLen <= Live()
      modifies `start, `haveHeader, `payloadLen, `rest
      ensures Buffered() && CompactedOnce() && !haveHeader && Live() == old(Live() - payloadLen)
      ensures Decode(old(rest)) == Decoded([frame] + Decode(rest).frames, Decode(rest).rest)
    {
      frame := Frame(stream, pending[start..start + payloadLen]);
      DecodeStep(rest);
      PayloadInBuffer(rest, pending, start, payloadLen);
      hide Decode;
      rest := rest[HEADER_SIZE + payloadLen..];
      start := start + payloadLen;
      haveHeader := false;
      payloadLen := 0;
    }

    /** Drops the consumed prefix; every live byte moves, and none of them had moved before. */
    method Compact()
      requires Buffered() && CompactedOnce() && 0 < start && Live() < Awaited()
      modifies `pending, `start, `moves
      ensures Buffered() && CompactedOnce() && start == 0
      ensures Sum(moves) == Sum(old(moves)) + old(Live()) && Live() == old(Live())
    {
      ghost var dead := |fed| - Live();
      MoveLive(moves, dead);
      moves := Moved(moves, dead);
      pending := pending[start..];
      start := 0;
    }
  }

  lemma Shift(a: seq<Frame>, f: Frame, b: seq<Frame>)
    ensures a + ([f] + b) == (a + [f]) + b
  {
  }

  /** A whole body in one feed, split by stream; stdin frames are ignored. */
  datatype DemuxedLogs = DemuxedLogs(stdoutData: seq<byte>, stderrData: seq<byte>)

  /** The payloads of one stream, concatenated in order. */
  function PayloadsOf(fs: seq<Frame>, s: Stream): seq<byte> {
    if fs == [] then [] else (if fs[0].stream == s then fs[0].data else []) + PayloadsOf(fs[1..], s)
  }

  lemma {:induction false} PayloadsAppend(a: seq<Frame>, b: seq<Frame>, s: Stream)
    ensures PayloadsOf(a + b, s) == PayloadsOf(a, s) + PayloadsOf(b, s)
    decreases |a|
  {
    if a == [] {
      assert a + b == b;
    } else {
      assert (a + b)[1..] == a[1..] + b;
      PayloadsAppend(a[1..], b, s);
    }
  }

  lemma PayloadsSnoc(fs: seq<Frame>, f: Frame, s: Stream)
    ensures PayloadsOf(fs + [f], s) == if f.stream == s then PayloadsOf(fs, s) + f.data else PayloadsOf(fs, s)
  {
    PayloadsAppend(fs, [f], s);
    assert [f][1..] == [] && PayloadsOf([f], s) == if f.stream == s then f.data else [];
  }

  function Split(frames: seq<Frame>): DemuxedLogs {
    DemuxedLogs(PayloadsOf(frames, StdOut), PayloadsOf(frames, StdErr))
  }

  method DemuxAll(body: seq<byte>) returns (out: DemuxedLogs)
    ensures out == Split(Decode(body).frames)
    ensures out.stdoutData == PayloadsOf(Decode(body).frames, StdOut)
    ensures out.stderrData == PayloadsOf(Decode(body).frames, StdErr)
  {
    var demuxer := new LogDemuxer();
    var frames := demuxer.Feed(body);
    assert [] + body == body && [] + frames == frames;
    out := SplitByStream(frames);
  }

  method SplitByStream(frames: seq<Frame>) returns (out: DemuxedLogs)
    ensures out == Split(frames)
  {
    out := DemuxedLogs([], []);
    for i := 0 to |frames|
      invariant out == Split(frames[..i])
    {
      var frame := frames[i];
      assert frames[..i + 1] == frames[..i] + [frame];
      PayloadsSnoc(frames[..i], frame, StdOut);
      PayloadsSnoc(frames[..i], frame, StdErr);
      match frame.stream
      case StdOut => out := out.(stdoutData := out.stdoutData + frame.data);
      case StdErr => out := out.(stderrData := out.stderrData + frame.data);
      case StdIn =>
    }
    assert frames[..|frames|] == frames;
  }

  /** However a stream is cut into chunks, the frames returned chunk by chunk concatenate to
      the decoding of the whole, and no byte has been moved more than once. */
  method FeedAll(chunks: seq<seq<byte>>) returns (frames: seq<Frame>, demuxer: LogDemuxer)
    ensures fresh(demuxer) && demuxer.Valid() && demuxer.fed == Concat(chunks)
    ensures frames == Decode(Concat(chunks)).frames
    ensures Sum(demuxer.moves) <= |Concat(chunks)|
  {
    frames := [];
    demuxer := new LogDemuxer();
    SumBounded(demuxer.moves, 1);
    for i := 0 to |chunks|
      invariant fresh(demuxer) && demuxer.Valid()
      invariant demuxer.fed == Concat(chunks[..i]) && demuxer.emitted == frames
      invariant Sum(demuxer.moves) <= |demuxer.fed|
    {
      assert chunks[..i + 1] == chunks[..i] + [chunks[i]];
      ConcatSnoc(chunks[..i], chunks[i]);
      var more := demuxer.Feed(chunks[i]);
      frames := frames + more;
    }
    assert chunks[..|chunks|] == chunks;
  }
}
