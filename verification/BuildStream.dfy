/** Scanning an image build's newline-separated progress stream, fed in arbitrary chunks. */
module BuildStream {
  import opened Wrappers
  import opened Bytes
  import opened Text

  /** What one line says; how JSON text is read into this is a parameter of the scanner. */
  datatype LineKind = StreamText(text: string) | Failure(message: string) | Other

  datatype Outcome = Succeeded | BuildFailed(message: string)

  const TAIL_CAP := 4096

  /** The build output in a list of lines, in order; empty lines are not looked at. */
  function Texts(lines: seq<string>, kind: string -> LineKind): seq<string> {
    if lines == [] then []
    else (if lines[0] != "" && kind(lines[0]).StreamText? then [kind(lines[0]).text] else []) + Texts(lines[1..], kind)
  }

  /** The error reported first. */
  function FirstError(lines: seq<string>, kind: string -> LineKind): Option<string> {
    if lines == [] then None
    else if lines[0] != "" && kind(lines[0]).Failure? then Some(kind(lines[0]).message)
    else FirstError(lines[1..], kind)
  }

  /** The last `n` characters, or everything when shorter. */
  function Last(s: string, n: nat): string {
    if |s| <= n then s else s[|s| - n..]
  }

  lemma {:induction false} TextsSnoc(lines: seq<string>, line: string, kind: string -> LineKind)
    ensures Texts(lines + [line], kind) ==
            if line != "" && kind(line).StreamText? then Texts(lines, kind) + [kind(line).text] else Texts(lines, kind)
    ensures FirstError(lines + [line], kind) ==
            if FirstError(lines, kind).Some? then FirstError(lines, kind)
            else if line != "" && kind(line).Failure? then Some(kind(line).message) else None
    decreases |lines|
  {
    if lines == [] {
      assert [line][1..] == [];
    } else {
      assert (lines + [line])[1..] == lines[1..] + [line];
      TextsSnoc(lines[1..], line, kind);
    }
  }

  lemma NoLines(kind: string -> LineKind)
    ensures Texts([], kind) == [] && FirstError([], kind) == None
  {
  }

  /** A tail is the end of its text, and as long as it may be. */
  lemma LastMeaning(s: string, n: nat)
    ensures |Last(s, n)| == (if n < |s| then n else |s|) && s[|s| - |Last(s, n)|..] == Last(s, n)
  {
  }

  /** Keeping only the last 4096 characters at every step keeps those of the whole output. */
  lemma TailSnoc(texts: seq<string>, text: string, tail: string)
    requires var output := Concat(texts);
      |tail| == (if 4096 < |output| then 4096 else |output|) && output[|output| - |tail|..] == tail
    ensures var (output, longer) := (Concat(texts + [text]), tail + text);
      var kept := if 4096 < |longer| then longer[|longer| - 4096..] else longer;
      |kept| == (if 4096 < |output| then 4096 else |output|) && output[|output| - |kept|..] == kept
  {
    ConcatSnoc(texts, text);
    hide Concat;
    TailGrows(Concat(texts), text, tail);
  }

  lemma TailGrows(output: string, text: string, tail: string)
    requires |tail| == (if 4096 < |output| then 4096 else |output|) && output[|output| - |tail|..] == tail
    ensures var (more, longer) := (output + text, tail + text);
      var kept := if 4096 < |longer| then longer[|longer| - 4096..] else longer;
      |kept| == (if 4096 < |more| then 4096 else |more|) && more[|more| - |kept|..] == kept
  {
    var front := output[..|output| - |tail|];
    assert output + text == front + (tail + text);
  }

  lemma TailOfOutput(texts: seq<string>, text: string)
    ensures Last(Last(Concat(texts), TAIL_CAP) + text, TAIL_CAP) == Last(Concat(texts + [text]), TAIL_CAP)
  {
    ConcatSnoc(texts, text);
    LastAppend(Concat(texts), text, TAIL_CAP);
  }

  lemma LastAppend(s: string, t: string, n: nat)
    ensures Last(Last(s, n) + t, n) == Last(s + t, n)
  {
  }

  class BuildStreamScanner {
    const kind: string -> LineKind
    const hasConsumer: bool

    var pending: string
    var tail: string
    var error: Option<string>
    var calls: seq<string>           // what the consumer was called with

    ghost var fed: string            // everything ever fed
    ghost var lines: seq<string>     // the lines scanned so far

    /** Everything scanned so far is accounted for: output, its tail, and the first error. */
    ghost predicate Accounted()
      reads this
    {
      && calls == (if hasConsumer then Texts(lines, kind) else [])
      && error == FirstError(lines, kind)
      && tail == Last(Concat(Texts(lines, kind)), TAIL_CAP)
    }

    /** Between feeds: all complete lines are scanned and the rest is pending. */
    ghost predicate Valid()
      reads this
    {
      Accounted() && Split(fed, '\n') == lines + [pending]
    }

    constructor (kind: string -> LineKind, hasConsumer: bool)
      ensures Valid() && fed == "" && this.kind == kind && this.hasConsumer == hasConsumer
    {
      this.kind, this.hasConsumer := kind, hasConsumer;
      pending, tail, error, calls, fed, lines := "", "", None, [], "", [];
    }

    method ScanLine(line: string)
      requires Accounted()
      modifies `tail, `error, `calls, `lines
      ensures Accounted() && lines == old(lines) + [line]
    {
      TextsSnoc(lines, line, kind);
      lines := lines + [line];
      if line == "" {
        return;
      }
      match kind(line)
      case StreamText(text) =>
        if hasConsumer {
          calls := calls + [text];
        }
        TailOfOutput(Texts(old(lines), kind), text);
        KeepTail(text);
      case Failure(message) =>
        if error.None? {
          error := Some(message);
        }
      case Other =>
    }

    method KeepTail(text: string)
      modifies `tail
      ensures tail == Last(old(tail) + text, TAIL_CAP)
    {
      tail := tail + text;
      if TAIL_CAP < |tail| {
        tail := tail[|tail| - TAIL_CAP..];
      }
    }

    method Feed(chunk: string)
      requires Valid()
      modifies `pending, `tail, `error, `calls, `fed, `lines
      ensures Valid() && fed == old(fed) + chunk
      ensures Join(lines + [pending], '\n') == fed
      // the tail is the end of the output so far, at most 4096 characters of it
      ensures var output := Concat(Texts(lines, kind));
        && |tail| == (if 4096 < |output| then 4096 else |output|) && output[|output| - |tail|..] == tail
      ensures error == FirstError(lines, kind) && calls == if hasConsumer then Texts(lines, kind) else []
    {
      SplitAppend(fed, chunk, '\n');
      fed := fed + chunk;
      pending := pending + chunk;
      var start := ScanCompleteLines();
      pending := pending[start..];
      JoinSplit(fed, '\n');
    }

    /** Scans every line that ends in the buffer; `start` is where the unfinished one begins. */
    method ScanCompleteLines() returns (start: nat)
      requires Accounted()
      modifies `tail, `error, `calls, `lines
      ensures Accounted() && start <= |pending|
      ensures lines + [pending[start..]] == old(lines) + Split(pending, '\n')
    {
      hide Split, Texts, FirstError, Last, Concat;
      start := 0;
      ghost var all := lines + Split(pending, '\n');
      assert pending[0..] == pending;
      while true
        invariant Accounted() && start <= |pending|
        invariant lines + Split(pending[start..], '\n') == all
        decreases |pending| - start
      {
        var nl := Find(pending, '\n', start);
        if nl == |pending| {
          assert pending[start..nl] == pending[start..];
          SplitSingle(pending[start..], '\n');
          break;
        }
        NextLine(pending, start, nl, lines);
        ScanLine(pending[start..nl]);
        start := nl + 1;
      }
    }

    /** Scans a trailing fragment and reports the first error, with the output around it. */
    method Finish() returns (r: Outcome)
      requires Valid()
      modifies `pending, `tail, `error, `calls, `lines
      ensures pending == ""
      ensures calls == if hasConsumer then Texts(Split(fed, '\n'), kind) else []
      ensures error == FirstError(Split(fed, '\n'), kind)
      ensures var output := Concat(Texts(Split(fed, '\n'), kind));
        && |tail| == (if 4096 < |output| then 4096 else |output|) && output[|output| - |tail|..] == tail
      ensures r.BuildFailed? <==> error.Some?
      ensures r.BuildFailed? ==> r.message == "image build failed: " + error.value +
                                              if tail == "" then "" else "\n--- build output (tail) ---\n" + tail
    {
      ScanRest();
      LastMeaning(Concat(Texts(Split(fed, '\n'), kind)), TAIL_CAP);
      hide Last, Concat, Texts, FirstError, Split;
      r := Report();
    }

    method ScanRest()
      requires Valid()
      modifies `pending, `tail, `error, `calls, `lines
      ensures pending == ""
      ensures calls == if hasConsumer then Texts(Split(fed, '\n'), kind) else []
      ensures error == FirstError(Split(fed, '\n'), kind)
      ensures tail == Last(Concat(Texts(Split(fed, '\n'), kind)), TAIL_CAP)
    {
      hide Last, Concat, Texts, FirstError, Split;
      if pending != "" {
        ScanLine(pending);
        pending := "";
      } else {
        TextsSnoc(lines, "", kind);
      }
    }

    method Report() returns (r: Outcome)
      ensures r.BuildFailed? <==> error.Some?
      ensures r.BuildFailed? ==> r.message == "image build failed: " + error.value +
                                              if tail == "" then "" else "\n--- build output (tail) ---\n" + tail
    {
      if error.Some? {
        var message := "image build failed: " + error.value;
        if tail != "" {
          message := message + ("\n--- build output (tail) ---\n" + tail);
        }
        assert tail == "" ==> message + "" == message;
        return BuildFailed(message);
      }
      return Succeeded;
    }
  }

  lemma NextLine(pending: string, start: nat, nl: nat, lines: seq<string>)
    requires start <= nl < |pending| && '\n' !in pending[start..nl] && pending[nl] == '\n'
    ensures lines + Split(pending[start..], '\n') == (lines + [pending[start..nl]]) + Split(pending[nl + 1..], '\n')
  {
    assert pending[start..] == pending[start..nl] + ['\n'] + pending[nl + 1..];
    SplitCons(pending[start..nl], pending[nl + 1..], '\n');
  }

  /** However the stream is cut into chunks, the consumer calls, the reported error and the
      kept tail are those of the whole text split into lines. */
  method ScanChunks(kind: string -> LineKind, chunks: seq<string>) returns (calls: seq<string>, r: Outcome)
    ensures var lines := Split(Concat(chunks), '\n');
      && calls == Texts(lines, kind)
      && (r.Succeeded? <==> FirstError(lines, kind).None?)
      && (r.BuildFailed? ==>
          var output := Concat(Texts(lines, kind));
          var tail := if |output| <= 4096 then output else output[|output| - 4096..];
          r.message == "image build failed: " + FirstError(lines, kind).value +
                       if tail == "" then "" else "\n--- build output (tail) ---\n" + tail)
  {
    var scanner := new BuildStreamScanner(kind, true);
    for i := 0 to |chunks|
      invariant fresh(scanner) && scanner.Valid() && scanner.kind == kind && scanner.hasConsumer
      invariant scanner.fed == Concat(chunks[..i])
    {
      assert chunks[..i + 1] == chunks[..i] + [chunks[i]];
      ConcatSnoc(chunks[..i], chunks[i]);
      scanner.Feed(chunks[i]);
    }
    assert chunks[..|chunks|] == chunks;
    r := scanner.Finish();
    calls := scanner.calls;
  }
}
