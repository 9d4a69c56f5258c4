/** Counting how often a log message appears: over a whole text, and streaming over chunks
    with a lazily trimmed buffer. */
module OccurrenceCounting {
  import opened Bytes

  const TRIM_AT := 65536

  /** Occurrences found so far, and the text a later occurrence may still start in. */
  datatype Scanned = Scanned(count: nat, rest: string)

  /** Left-to-right greedy scan for non-overlapping occurrences. */
  ghost function Scan(h: string, needle: string): (s: Scanned)
    requires needle != ""
    ensures |s.rest| < |needle|
    decreases |h|
  {
    if |h| < |needle| then Scanned(0, h)
    else if needle <= h then
      var more := Scan(h[|needle|..], needle);
      Scanned(1 + more.count, more.rest)
    else Scan(h[1..], needle)
  }

  /** What counts as seen: nothing for an empty needle. */
  ghost function Occurrences(h: string, needle: string): nat {
    if needle == "" then 0 else Scan(h, needle).count
  }

  // ----- greedy scanning finds as many as possible

  ghost predicate At(h: string, needle: string, p: int) {
    0 <= p && p + |needle| <= |h| && h[p..p + |needle|] == needle
  }

  /** `ps` are non-overlapping occurrences, left to right, none before `from`. */
  ghost predicate Placement(ps: seq<int>, h: string, needle: string, from: int) {
    ps == [] || (from <= ps[0] && At(h, needle, ps[0]) && Placement(ps[1..], h, needle, ps[0] + |needle|))
  }

  lemma {:induction false} PlacementLater(ps: seq<int>, h: string, needle: string, from: int, start: int)
    requires Placement(ps, h, needle, from) && (ps == [] || start <= ps[0])
    ensures Placement(ps, h, needle, start)
  {
  }

  /** No choice of non-overlapping occurrences beats the greedy count. */
  lemma {:induction false} GreedyIsMaximal(ps: seq<int>, h: string, needle: string, from: nat)
    requires needle != "" && from <= |h| && Placement(ps, h, needle, from)
    ensures |ps| <= Occurrences(h[from..], needle)
    decreases |h| - from
  {
    if ps == [] {
    } else {
      var p, n := ps[0], |needle|;
      var t := h[from..];
      if needle <= t {
        assert t[n..] == h[from + n..];
        if 1 < |ps| {
          PlacementLater(ps[1..], h, needle, p + n, from + n);
        }
        GreedyIsMaximal(ps[1..], h, needle, from + n);
      } else {
        assert t[1..] == h[from + 1..];
        assert from + n <= |h| ==> h[from..from + n] == t[..n];
        GreedyIsMaximal(ps, h, needle, from + 1);
      }
    }
  }

  /** Some choice attains it, so Occurrences is the maximum. */
  lemma {:induction false} GreedyIsAttained(h: string, needle: string, from: nat) returns (ps: seq<int>)
    requires needle != "" && from <= |h|
    ensures Placement(ps, h, needle, from) && |ps| == Occurrences(h[from..], needle)
    decreases |h| - from
  {
    var t := h[from..];
    if |t| < |needle| {
      ps := [];
    } else if needle <= t {
      assert t[|needle|..] == h[from + |needle|..];
      var later := GreedyIsAttained(h, needle, from + |needle|);
      assert h[from..from + |needle|] == t[..|needle|];
      ps := [from] + later;
    } else {
      assert t[1..] == h[from + 1..];
      ps := GreedyIsAttained(h, needle, from + 1);
      PlacementLater(ps, h, needle, from + 1, from);
    }
  }

  /** The positions of a placement: occurrences, each after the end of the one before. */
  ghost predicate Positions(ps: seq<int>, h: string, needle: string, from: nat) {
    && (forall i :: 0 <= i < |ps| ==> from <= ps[i] <= |h| - |needle| && h[ps[i]..ps[i] + |needle|] == needle)
    && (forall i, j :: 0 <= i < j < |ps| ==> ps[i] + |needle| <= ps[j])
  }

  lemma {:induction false} PlacementPositions(ps: seq<int>, h: string, needle: string, from: nat)
    requires Placement(ps, h, needle, from)
    ensures Positions(ps, h, needle, from)
    decreases |ps|
  {
    if ps == [] {
    } else {
      var later := ps[1..];
      PlacementPositions(later, h, needle, ps[0] + |needle|);
      hide Placement;
      assert forall i :: 1 <= i < |ps| ==> ps[i] == later[i - 1];
    }
  }

  lemma {:induction false} PositionsPlaced(ps: seq<int>, h: string, needle: string, from: nat)
    requires Positions(ps, h, needle, from)
    ensures Placement(ps, h, needle, from)
    decreases |ps|
  {
    if ps == [] {
    } else {
      var later := ps[1..];
      assert forall i :: 0 <= i < |later| ==> later[i] == ps[i + 1] && ps[0] + |needle| <= ps[i + 1];
      PositionsPlaced(later, h, needle, ps[0] + |needle|);
      hide Positions;
    }
  }

  /** The count is the largest number of occurrences that can be picked without overlap. */
  lemma CountIsMaximum(h: string, needle: string, ps: seq<int>)
    requires needle != ""
    requires forall i :: 0 <= i < |ps| ==> 0 <= ps[i] <= |h| - |needle| && h[ps[i]..ps[i] + |needle|] == needle
    requires forall i, j :: 0 <= i < j < |ps| ==> ps[i] + |needle| <= ps[j]
    ensures |ps| <= Occurrences(h, needle)
  {
    PositionsPlaced(ps, h, needle, 0);
    GreedyIsMaximal(ps, h, needle, 0);
    assert h[0..] == h;
  }

  lemma CountIsReached(h: string, needle: string) returns (ps: seq<int>)
    requires needle != ""
    ensures |ps| == Occurrences(h, needle)
    ensures forall i :: 0 <= i < |ps| ==> 0 <= ps[i] <= |h| - |needle| && h[ps[i]..ps[i] + |needle|] == needle
    ensures forall i, j :: 0 <= i < j < |ps| ==> ps[i] + |needle| <= ps[j]
  {
    ps := GreedyIsAttained(h, needle, 0);
    PlacementPositions(ps, h, needle, 0);
    assert h[0..] == h;
  }

  lemma EmptyNeedle(h: string)
    ensures Occurrences(h, "") == 0
  {
  }

  // ----- scanning can be interrupted anywhere

  lemma {:induction false} ScanAppend(a: string, b: string, needle: string)
    requires needle != ""
    ensures var first := Scan(a, needle);
      var more := Scan(first.rest + b, needle);
      Scan(a + b, needle) == Scanned(first.count + more.count, more.rest)
    decreases |a|
  {
    if |a| < |needle| {
    } else {
      var n := |needle|;
      assert (a + b)[..n] == a[..n];
      if needle <= a {
        assert (a + b)[n..] == a[n..] + b;
        ScanAppend(a[n..], b, needle);
      } else {
        assert (a + b)[1..] == a[1..] + b;
        ScanAppend(a[1..], b, needle);
      }
    }
  }

  /** Positions without a match are passed over one by one. */
  lemma {:induction false} ScanSkips(h: string, needle: string, from: int, end: int)
    requires needle != "" && 0 <= from <= end <= |h|
    requires from < end ==> end + |needle| <= |h| + 1
    requires forall p :: from <= p < end ==> !At(h, needle, p)
    ensures Scan(h[from..], needle) == Scan(h[end..], needle)
    decreases end - from
  {
    if end <= from {
    } else {
      assert !At(h, needle, from);
      var t := h[from..];
      assert h[from..from + |needle|] == t[..|needle|];
      assert t[1..] == h[from + 1..];
      ScanSkips(h, needle, from + 1, end);
    }
  }

  /** `pos` is the first occurrence at or after `from`, or -1 when there is none. */
  ghost predicate IsFirst(h: string, needle: string, from: int, pos: int) {
    if pos == -1 then forall p :: from <= p ==> !At(h, needle, p)
    else from <= pos && At(h, needle, pos) && forall p :: from <= p < pos ==> !At(h, needle, p)
  }

  method Find(h: string, needle: string, from: nat) returns (pos: int)
    requires needle != "" && from <= |h|
    ensures IsFirst(h, needle, from, pos)
  {
    pos := from;
    while pos + |needle| <= |h|
      invariant from <= pos <= |h|
      invariant forall p :: from <= p < pos ==> !At(h, needle, p)
    {
      if h[pos..pos + |needle|] == needle {
        return;
      }
      pos := pos + 1;
    }
    return -1;
  }

  /** One find either skips to a match and past it, or shows what is left is only a tail. */
  lemma FindStep(h: string, needle: string, from: nat, pos: int)
    requires needle != "" && from <= |h|
    requires IsFirst(h, needle, from, pos)
    ensures pos != -1 ==> var more := Scan(h[pos + |needle|..], needle);
                          Scan(h[from..], needle) == Scanned(1 + more.count, more.rest)
    ensures pos == -1 ==> Scan(h[from..], needle) == Scanned(0, h[Max(from, TailStart(h, needle))..])
  {
    if pos == -1 {
      ScanSkips(h, needle, from, Max(from, TailStart(h, needle)));
    } else {
      ScanSkips(h, needle, from, pos);
      var t := h[pos..];
      assert t[..|needle|] == h[pos..pos + |needle|];
      assert t[|needle|..] == h[pos + |needle|..];
    }
  }

  function Max(a: nat, b: nat): nat {
    if a < b then b else a
  }

  /** Where the last |needle| - 1 characters begin: no earlier start can still match. */
  function TailStart(h: string, needle: string): (k: nat)
    requires needle != ""
    ensures k <= |h|
  {
    if |h| < |needle| then 0 else |h| - (|needle| - 1)
  }

  /** The find loop of both counters: how many matches from `from` on, and where the last
      one ended. */
  method CountMatches(h: string, needle: string, from: nat) returns (count: nat, next: nat)
    requires needle != "" && from <= |h|
    ensures from <= next <= |h|
    ensures Scan(h[from..], needle) == Scanned(count, h[Max(next, TailStart(h, needle))..])
  {
    hide Scan;
    next, count := from, 0;
    while true
      invariant from <= next <= |h|
      invariant var more := Scan(h[next..], needle);
                Scan(h[from..], needle) == Scanned(count + more.count, more.rest)
      decreases |h| - next
    {
      var pos := Find(h, needle, next);
      FindStep(h, needle, next, pos);
      if pos == -1 {
        break;
      }
      next := pos + |needle|;
      count := count + 1;
    }
  }

  method CountOccurrences(haystack: string, needle: string) returns (count: nat)
    ensures count == Occurrences(haystack, needle)
  {
    if needle == "" {
      return 0;
    }
    assert haystack[0..] == haystack;
    var found, _ := CountMatches(haystack, needle, 0);
    return found;
  }

  /** Scanning on from where the last scan left off scans everything. */
  lemma Resumed(fed: string, buffered: string, chunk: string, needle: string,
                from: nat, count: nat, found: nat, next: nat)
    requires needle != "" && from <= |buffered| && Scan(fed, needle) == Scanned(count, buffered[from..])
    requires var all := buffered + chunk;
      next <= |all| && Scan(all[from..], needle) == Scanned(found, all[Max(next, TailStart(all, needle))..])
    ensures var all := buffered + chunk;
      Scan(fed + chunk, needle) == Scanned(count + found, all[Max(next, TailStart(all, needle))..])
  {
    ScanAppend(fed, chunk, needle);
    assert (buffered + chunk)[from..] == buffered[from..] + chunk;
    hide Scan;
  }

  /** Every TRIM_AT characters dropped pay for the at most `size` - 1 shifted with them. */
  predicate Amortised(moved: nat, size: nat, dropped: nat) {
    TRIM_AT * moved <= (size - 1) * dropped
  }

  /** A trim drops more than TRIM_AT characters and shifts fewer than the needle has. */
  lemma TrimAmortised(moved: nat, size: nat, dropped: nat, drop: nat, kept: nat)
    requires Amortised(moved, size, dropped) && TRIM_AT < drop && kept < size
    ensures Amortised(moved + kept, size, dropped + drop)
  {
    assert TRIM_AT * kept <= drop * (size - 1);
    assert (size - 1) * (dropped + drop) == (size - 1) * dropped + (size - 1) * drop;
  }

  lemma AmortisedOverAll(moved: nat, size: nat, dropped: nat, all: nat)
    requires 0 < size && Amortised(moved, size, dropped) && dropped <= all
    ensures TRIM_AT * moved <= (size - 1) * all
  {
    assert (size - 1) * dropped <= (size - 1) * all;
  }

  class OccurrenceCounter {
    const needle: string
    var buffered: string   // unscanned tail, plus a prefix trimmed lazily
    var scanFrom: nat      // first character a future match may start at
    var count: nat

    ghost var fed: string  // everything ever fed
    ghost var moved: nat   // characters shifted by trims, all told

    /** The count is that of everything fed, and what is kept is all a later match needs. */
    ghost predicate Scanning()
      reads this
    {
      && scanFrom <= |buffered| <= |fed|
      && (needle == "" ==> count == 0)
      && (needle != "" ==> Scan(fed, needle) == Scanned(count, buffered[scanFrom..]))
    }

    ghost predicate Paid()
      reads this
    {
      |buffered| <= |fed| && (needle != "" ==> Amortised(moved, |needle|, |fed| - |buffered|))
    }

    /** Between feeds also: the buffer is bounded. */
    ghost predicate Valid()
      reads this
    {
      Scanning() && Paid() && (needle != "" ==> |buffered| <= TRIM_AT + |needle| - 1)
    }

    constructor (needle: string)
      ensures Valid() && this.needle == needle && fed == ""
    {
      this.needle := needle;
      buffered, scanFrom, count, fed, moved := "", 0, 0, "", 0;
    }

    method Feed(chunk: string)
      requires Valid()
      modifies this
      ensures Valid() && fed == old(fed) + chunk
      ensures count == Occurrences(fed, needle)
    {
      hide Amortised;
      if needle == "" {
        fed := fed + chunk;
        return;
      }
      ScanMore(chunk);
      hide Scan;
      TrimIfLarge();
    }

    /** Appends, counts the matches in what is not yet scanned, and moves on to where a later
        match may start: after the last match, and in the last |needle| - 1 characters. */
    method ScanMore(chunk: string)
      requires Scanning() && Paid() && needle != ""
      modifies `fed, `buffered, `scanFrom, `count
      ensures Scanning() && Paid() && fed == old(fed) + chunk
    {
      hide Amortised, Scan;
      ghost var (was, had) := (fed, buffered);
      fed := fed + chunk;
      buffered := buffered + chunk;
      var found, next := CountMatches(buffered, needle, scanFrom);
      Resumed(was, had, chunk, needle, scanFrom, count, found, next);
      count := count + found;
      var tailStart := if |buffered| < |needle| then 0 else |buffered| - (|needle| - 1);
      scanFrom := Max(next, tailStart);
    }

    /** Drops the consumed prefix once it is large. */
    method TrimIfLarge()
      requires Scanning() && Paid() && needle != ""
      modifies `buffered, `scanFrom, `moved
      ensures Valid()
    {
      if TRIM_AT < scanFrom {
        TrimAmortised(moved, |needle|, |fed| - |buffered|, scanFrom, |buffered| - scanFrom);
        hide Amortised;
        moved := moved + (|buffered| - scanFrom);
        buffered := buffered[scanFrom..];
        scanFrom := 0;
      }
    }
  }

  /** However a log is cut into chunks, the counter reports the count of the whole log, and
      what it buffers and shifts stays bounded. */
  method CountChunks(needle: string, chunks: seq<string>) returns (count: nat, counter: OccurrenceCounter)
    ensures count == Occurrences(Concat(chunks), needle)
    ensures needle != "" ==> 65536 * counter.moved <= (|needle| - 1) * |Concat(chunks)|
    ensures needle != "" ==> |counter.buffered| <= 65536 + |needle| - 1
  {
    counter := new OccurrenceCounter(needle);
    for i := 0 to |chunks|
      invariant fresh(counter) && counter.Valid() && counter.needle == needle
      invariant counter.fed == Concat(chunks[..i])
    {
      assert chunks[..i + 1] == chunks[..i] + [chunks[i]];
      ConcatSnoc(chunks[..i], chunks[i]);
      counter.Feed(chunks[i]);
    }
    assert chunks[..|chunks|] == chunks;
    if needle != "" {
      AmortisedOverAll(counter.moved, |needle|, |counter.fed| - |counter.buffered|, |counter.fed|);
    }
    count := counter.count;
  }
}
