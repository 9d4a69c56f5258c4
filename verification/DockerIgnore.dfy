/** The .dockerignore matcher: component globs, `**` over path components, parent
    directories, and last-match-wins over the whole pattern list. */
module DockerIgnore {
  import opened GlobSemantics

  /** One parsed line: cleaned '/'-separated components plus the `!` flag. */
  datatype IgnorePattern = IgnorePattern(components: seq<string>, negated: bool)

  // ----- one component

  ghost predicate ComponentMatches(pattern: string, name: string) {
    Matches(Tokenize(pattern), name)
  }

  /** Reads the class member at `c`: one character or a range, either end escapable. */
  method ReadMember(pattern: string, start: nat) returns (lo: char, hi: char, c: nat)
    requires start < |pattern|
    ensures start < c <= |pattern|
    ensures ClassItem(pattern[start..]) == (Range(lo, hi), c - start)
  {
    c := start;
    lo := pattern[c];
    if lo == '\\' && c + 1 < |pattern| {
      c := c + 1;
      lo := pattern[c];
    }
    hi := lo;
    if c + 2 < |pattern| && pattern[c + 1] == '-' && pattern[c + 2] != ']' {
      hi := pattern[c + 2];
      if hi == '\\' && c + 3 < |pattern| {
        hi := pattern[c + 3];
        c := c + 1;
      }
      c := c + 2;
    }
    c := c + 1;
  }

  /** Reads the class that follows position `open` and tests `ch` against its members. */
  method TestClass(pattern: string, open: nat, ch: char) returns (matched: bool, closed: bool, c: nat)
    requires open < |pattern| && pattern[open] == '['
    ensures open < c <= |pattern|
    ensures ScanClass(pattern[open + 1..], true).Closed? <==> closed
    ensures closed ==>
              var scan := ScanClass(pattern[open + 1..], true);
              && c < |pattern|
              && scan.rest == pattern[c + 1..]
              && (matched <==> InClass(scan.ranges, ch))
  {
    c := open + 1;
    matched, closed := false, false;
    var first := true;
    ghost var seen: seq<Range> := [];
    ghost var whole := ScanClass(pattern[open + 1..], true);
    assert whole.Closed? ==> [] + whole.ranges == whole.ranges;
    while c < |pattern|
      invariant open < c <= |pattern|
      invariant matched <==> InClass(seen, ch)
      invariant !closed
      invariant ScansOn(whole, seen, ScanClass(pattern[c..], first))
      decreases |pattern| - c
    {
      if pattern[c] == ']' && !first {
        closed := true;
        ClassEnd(pattern[c..], seen, whole);
        break;
      }
      var lo, hi, next := ReadMember(pattern, c);
      NextMember(pattern, c, next, first, seen, whole);
      InClassSnoc(seen, Range(lo, hi), ch);
      hide ScanClass, InClass;
      first := false;
      if lo <= ch <= hi {
        matched := true;
      }
      c := next;
      seen := seen + [Range(lo, hi)];
    }
  }

  /** The whole class is the members `seen` followed by what is still to be scanned. */
  predicate ScansOn(whole: ClassScan, seen: seq<Range>, rest: ClassScan) {
    match rest
    case Unterminated => whole == Unterminated
    case Closed(ranges, tail) => whole == Closed(seen + ranges, tail)
  }

  lemma ClassEnd(s: string, seen: seq<Range>, whole: ClassScan)
    requires s != "" && s[0] == ']' && ScansOn(whole, seen, ScanClass(s, false))
    ensures whole == Closed(seen, s[1..])
  {
    assert seen + [] == seen;
  }

  /** One member off the front of the class body. */
  lemma NextMember(pattern: string, c: nat, next: nat, first: bool, seen: seq<Range>, whole: ClassScan)
    requires c < next <= |pattern| && (pattern[c] == ']' ==> first)
    requires ClassItem(pattern[c..]).1 == next - c && ScansOn(whole, seen, ScanClass(pattern[c..], first))
    ensures ScansOn(whole, seen + [ClassItem(pattern[c..]).0], ScanClass(pattern[next..], false))
  {
    var here := pattern[c..];
    assert here[next - c..] == pattern[next..];
    var tail := ScanClass(pattern[next..], false);
    if tail.Closed? {
      SeqAssoc(seen, ClassItem(here).0, tail.ranges);
    }
    hide ClassItem;
  }

  lemma SeqAssoc(a: seq<Range>, x: Range, b: seq<Range>)
    ensures (a + [x]) + b == a + ([x] + b)
  {
  }

  lemma InClassSnoc(ranges: seq<Range>, r: Range, ch: char)
    ensures InClass(ranges + [r], ch) <==> InClass(ranges, ch) || r.lo <= ch <= r.hi
  {
    var all := ranges + [r];
    assert all[|ranges|] == r;
    forall i | 0 <= i < |ranges| ensures all[i] == ranges[i] {}
  }

  /** Tests `ch` against the one-character token at `p`; on success `q` is past the token. */
  method TestToken(pattern: string, p: int, ch: char) returns (ok: bool, q: int)
    requires 0 <= p < |pattern| && pattern[p] != '*'
    ensures var ts := Tokenize(pattern[p..]);
            && ts != [] && !ts[0].Star?
            && (ok <==> Accepts(ts[0], ch))
            && (ok ==> p < q <= |pattern| && ts[1..] == Tokenize(pattern[q..]))
  {
    ghost var here := pattern[p..];
    assert here[1..] == pattern[p + 1..];
    var pc := pattern[p];
    if pc == '?' {
      return true, p + 1;
    }
    if pc == '[' {
      var matched, closed, c := TestClass(pattern, p, ch);
      return closed && matched, c + 1;
    }
    if pc == '\\' && p + 1 < |pattern| {
      assert here[2..] == pattern[p + 2..];
      return pattern[p + 1] == ch, p + 2;
    }
    return pc == ch, p + 1;
  }

  const NO_STAR := -1

  /** The iterative matcher that remembers only the most recent star decides exactly
      the declarative semantics. */
  method MatchComponent(pattern: string, name: string) returns (b: bool)
    ensures b <==> ComponentMatches(pattern, name)
  {
    hide Backtracking, ComponentMatches, Tokenize, Matches, Accepts;
    var p, n := 0, 0;
    var star, starN := NO_STAR, 0;
    ghost var seg: seq<Token> := [];   // the tokens between the last star and p
    NothingTriedYet(pattern, name);
    while n < |name|
      invariant Backtracking(pattern, name, p, n, star, starN, seg)
      invariant NO_STAR <= star <= p <= |pattern| && 0 <= p && 0 <= starN <= n <= |name|
      decreases |pattern| - star, |name| - starN, |pattern| - p
    {
      if p < |pattern| && pattern[p] == '*' {
        StarStep(pattern, name, p, n, star, starN, seg);
        p := p + 1;
        star, starN, seg := p, n, [];
        continue;
      }
      var ok, q := false, p;
      if p < |pattern| {
        ok, q := TestToken(pattern, p, name[n]);
      }
      if ok {
        TokenStep(pattern, name, p, q, n, star, starN, seg);
        seg := seg + [Tokenize(pattern[p..])[0]];
        p, n := q, n + 1;
      } else {
        // Mismatch: give the last star one more character, or fail.
        Mismatch(pattern, name, p, n, star, starN, seg);
        if star == NO_STAR {
          return false;
        }
        p, starN, seg := star, starN + 1, [];
        n := starN;
      }
    }
    NoRetryAtEnd(pattern, name, p, star, starN, seg);
    b := OnlyStars(pattern, p);
  }

  /** The rest of the pattern must be all stars once the name is used up. */
  method OnlyStars(pattern: string, start: int) returns (b: bool)
    requires 0 <= start <= |pattern|
    ensures b <==> forall t :: t in Tokenize(pattern[start..]) ==> t.Star?
  {
    var p := start;
    while p < |pattern| && pattern[p] == '*'
      invariant start <= p <= |pattern|
      invariant (forall t :: t in Tokenize(pattern[start..]) ==> t.Star?)
           <==> (forall t :: t in Tokenize(pattern[p..]) ==> t.Star?)
    {
      assert pattern[p..][1..] == pattern[p + 1..];
      p := p + 1;
    }
    if p < |pattern| {
      assert !Tokenize(pattern[p..])[0].Star?;
    }
    return p == |pattern|;
  }

  /** What is still open at (p, n): the current attempt, or a later start of the last star. */
  ghost predicate Undecided(pattern: string, name: string, p: int, n: int, star: int, starN: int)
    requires 0 <= p <= |pattern| && 0 <= n <= |name| && NO_STAR <= star <= |pattern| && 0 <= starN
  {
    || Matches(Tokenize(pattern[p..]), name[n..])
    || (star != NO_STAR && LaterMatch(Tokenize(pattern[star..]), name, starN))
  }

  /** Some later retry of the star whose continuation is `ts` would match. */
  ghost predicate LaterMatch(ts: seq<Token>, name: string, starN: int)
    requires 0 <= starN
  {
    exists k :: starN < k <= |name| && Matches(ts, name[k..])
  }

  /** `ts` is `rest` behind a star-free segment of `count` tokens. */
  ghost predicate Bridges(seg: seq<Token>, ts: seq<Token>, rest: seq<Token>, count: int) {
    ts == seg + rest && |seg| == count && forall t :: t in seg ==> !t.Star?
  }

  /** The loop invariant: nothing tried so far has changed the answer, and since the last
      star one star-free token was consumed per character. */
  ghost predicate Backtracking(pattern: string, name: string, p: int, n: int, star: int, starN: int, seg: seq<Token>) {
    && NO_STAR <= star <= p <= |pattern| && 0 <= p
    && 0 <= starN <= n <= |name|
    && (ComponentMatches(pattern, name) <==> Undecided(pattern, name, p, n, star, starN))
    && (star != NO_STAR ==> Bridges(seg, Tokenize(pattern[star..]), Tokenize(pattern[p..]), n - starN))
  }

  /** Reaching a new star makes every retry of the previous one redundant: whatever a
      later start of `seg` reaches, the new star reaches too. */
  lemma RetriesSubsumed(seg: seq<Token>, ts: seq<Token>, name: string, starN: int, n: int)
    requires ts != [] && ts[0].Star? && 0 <= starN <= n <= |name|
    requires Bridges(seg, seg + ts, ts, n - starN)
    ensures LaterMatch(seg + ts, name, starN) ==> Matches(ts, name[n..])
  {
    if LaterMatch(seg + ts, name, starN) {
      var k :| starN < k <= |name| && Matches(seg + ts, name[k..]);
      SegmentConsumes(seg, ts, name[k..]);
      var m := k + |seg|;
      assert name[k..][|seg|..] == name[m..];
      StarUnfold(ts, name, m);
      StarUnfold(ts, name, n);
    }
  }

  lemma StarStep(pattern: string, name: string, p: int, n: int, star: int, starN: int, seg: seq<Token>)
    requires Backtracking(pattern, name, p, n, star, starN, seg)
    requires p < |pattern| && pattern[p] == '*'
    ensures Backtracking(pattern, name, p + 1, n, p + 1, n, [])
  {
    var ts := Tokenize(pattern[p..]);
    assert pattern[p..][1..] == pattern[p + 1..];
    assert ts[1..] == Tokenize(pattern[p + 1..]);
    StarUnfold(ts, name, n);
    if star != NO_STAR {
      RetriesSubsumed(seg, ts, name, starN, n);
    }
  }

  lemma TokenStep(pattern: string, name: string, p: int, q: int, n: int, star: int, starN: int, seg: seq<Token>)
    requires Backtracking(pattern, name, p, n, star, starN, seg)
    requires p < q <= |pattern| && n < |name|
    requires var ts := Tokenize(pattern[p..]);
      ts != [] && !ts[0].Star? && Accepts(ts[0], name[n]) && ts[1..] == Tokenize(pattern[q..])
    ensures Backtracking(pattern, name, q, n + 1, star, starN, seg + [Tokenize(pattern[p..])[0]])
  {
    hide Tokenize, Accepts;
    var ts := Tokenize(pattern[p..]);
    assert name[n..][1..] == name[n + 1..];
    assert Matches(ts, name[n..]) <==> Matches(ts[1..], name[n + 1..]);
    hide Matches;
    assert seg + ts == (seg + [ts[0]]) + ts[1..];
  }

  lemma NothingTriedYet(pattern: string, name: string)
    ensures Backtracking(pattern, name, 0, 0, NO_STAR, 0, [])
  {
    assert pattern[0..] == pattern && name[0..] == name;
  }

  /** The token at `p` does not accept the character at `n`, or no token is left: the last
      star is retried one further, and without a star nothing can match. */
  lemma Mismatch(pattern: string, name: string, p: int, n: int, star: int, starN: int, seg: seq<Token>)
    requires Backtracking(pattern, name, p, n, star, starN, seg) && n < |name|
    requires p < |pattern| ==> var ts := Tokenize(pattern[p..]); ts != [] && !ts[0].Star? && !Accepts(ts[0], name[n])
    ensures star == NO_STAR ==> !ComponentMatches(pattern, name)
    ensures star != NO_STAR ==> Backtracking(pattern, name, star, starN + 1, star, starN + 1, [])
  {
    assert !Matches(Tokenize(pattern[p..]), name[n..]);
    if star != NO_STAR {
      assert [] + Tokenize(pattern[star..]) == Tokenize(pattern[star..]);
    }
  }

  /** With the name used up, a later start would have too few characters left. */
  lemma NoRetryAtEnd(pattern: string, name: string, p: int, star: int, starN: int, seg: seq<Token>)
    requires Backtracking(pattern, name, p, |name|, star, starN, seg)
    ensures ComponentMatches(pattern, name) <==> forall t :: t in Tokenize(pattern[p..]) ==> t.Star?
  {
    var ts := Tokenize(pattern[p..]);
    assert name[|name|..] == [];
    MatchesEmpty(ts);
    if star != NO_STAR {
      forall k | starN < k <= |name| ensures !Matches(seg + ts, name[k..]) {
        if Matches(seg + ts, name[k..]) {
          SegmentConsumes(seg, ts, name[k..]);
        }
      }
    }
  }

  // ----- whole paths

  const DOUBLE_STAR := "**"

  /** Declarative path semantics: `**` stands for any run of components, every other
      pattern component for exactly one that its glob matches. */
  ghost predicate PathMatches(pattern: seq<string>, path: seq<string>)
    decreases |pattern|
  {
    if pattern == [] then path == []
    else if pattern[0] == DOUBLE_STAR then exists k :: 0 <= k <= |path| && PathMatches(pattern[1..], path[k..])
    else path != [] && ComponentMatches(pattern[0], path[0]) && PathMatches(pattern[1..], path[1..])
  }

  /** The semantics by its cases, `**` written out. */
  lemma PathMeaning(c: string, rest: seq<string>, path: seq<string>)
    ensures PathMatches([], path) <==> path == []
    ensures PathMatches(["**"] + rest, path) <==> exists k :: 0 <= k <= |path| && PathMatches(rest, path[k..])
    ensures c != "**" ==>
      (PathMatches([c] + rest, path) <==> path != [] && ComponentMatches(c, path[0]) && PathMatches(rest, path[1..]))
  {
    assert (["**"] + rest)[1..] == rest && ([c] + rest)[1..] == rest;
  }

  /** The pattern matches the path itself or one of its parent directories. */
  ghost predicate Hits(pattern: IgnorePattern, path: seq<string>) {
    exists take :: 1 <= take <= |path| && PathMatches(pattern.components, path[..take])
  }

  /** A `**` in front matches by spanning nothing, or by eating one component and staying. */
  lemma DoubleStarStep(pattern: seq<string>, path: seq<string>)
    requires pattern != [] && pattern[0] == DOUBLE_STAR
    ensures PathMatches(pattern, path)
       <==> PathMatches(pattern[1..], path) || (path != [] && PathMatches(pattern, path[1..]))
  {
    assert path[0..] == path;
    if path != [] {
      forall k | 0 <= k <= |path[1..]| ensures path[1..][k..] == path[k + 1..] {}
      if PathMatches(pattern, path[1..]) {
        var k :| 0 <= k <= |path[1..]| && PathMatches(pattern[1..], path[1..][k..]);
        assert path[1..][k..] == path[k + 1..];
      }
      if k :| 1 <= k <= |path| && PathMatches(pattern[1..], path[k..]) {
        assert path[1..][k - 1..] == path[k..];
      }
    }
  }

  /** The recursive matcher over path[vi..end) decides the declarative path semantics. */
  method MatchFrom(pattern: seq<string>, pi: nat, path: seq<string>, vi: nat, end: nat) returns (b: bool)
    requires pi <= |pattern| && vi <= end <= |path|
    ensures b <==> PathMatches(pattern[pi..], path[vi..end])
    decreases |pattern| - pi, end - vi
  {
    ghost var rest, here := pattern[pi..], path[vi..end];
    if pi == |pattern| {
      return vi == end;
    }
    assert rest[1..] == pattern[pi + 1..];
    if vi < end {
      assert here[1..] == path[vi + 1..end];
    }
    if pattern[pi] == DOUBLE_STAR {
      DoubleStarStep(rest, here);
      b := MatchFrom(pattern, pi + 1, path, vi, end);
      if b || vi == end {
        return b;
      }
      b := MatchFrom(pattern, pi, path, vi + 1, end);
      return b;
    }
    if vi == end {
      return false;
    }
    b := MatchComponent(pattern[pi], path[vi]);
    if b {
      b := MatchFrom(pattern, pi + 1, path, vi + 1, end);
    }
  }

  method MatchesOrParent(pattern: IgnorePattern, path: seq<string>) returns (b: bool)
    ensures b <==> Hits(pattern, path)
  {
    assert pattern.components[0..] == pattern.components;
    for take := 1 to |path| + 1
      invariant forall t :: 1 <= t < take ==> !PathMatches(pattern.components, path[..t])
    {
      b := MatchFrom(pattern.components, 0, path, 0, take);
      assert path[0..take] == path[..take];
      if b {
        return true;
      }
    }
    return false;
  }

  /** Appending `**` to a pattern accepts exactly the paths some prefix of which the
      pattern accepts. */
  lemma {:induction false} TrailingDoubleStar(pattern: seq<string>, path: seq<string>)
    ensures PathMatches(pattern + ["**"], path)
       <==> exists take :: 0 <= take <= |path| && PathMatches(pattern, path[..take])
    decreases |pattern|
  {
    var ext := pattern + [DOUBLE_STAR];
    if pattern == [] {
      assert path[|path|..] == [] && PathMatches(ext[1..], path[|path|..]);
      assert path[..0] == [];
    } else {
      assert ext[1..] == pattern[1..] + [DOUBLE_STAR];
      if pattern[0] == DOUBLE_STAR {
        if k :| 0 <= k <= |path| && PathMatches(ext[1..], path[k..]) {
          TrailingDoubleStar(pattern[1..], path[k..]);
          var t :| 0 <= t <= |path[k..]| && PathMatches(pattern[1..], path[k..][..t]);
          assert path[k..][..t] == path[..k + t][k..];
          assert PathMatches(pattern, path[..k + t]);
        }
        if take :| 0 <= take <= |path| && PathMatches(pattern, path[..take]) {
          var k :| 0 <= k <= take && PathMatches(pattern[1..], path[..take][k..]);
          assert path[..take][k..] == path[k..][..take - k];
          TrailingDoubleStar(pattern[1..], path[k..]);
          assert PathMatches(ext[1..], path[k..]);
        }
      } else if path != [] {
        TrailingDoubleStar(pattern[1..], path[1..]);
        forall t | 1 <= t <= |path| ensures path[..t][1..] == path[1..][..t - 1] {}
        forall t | 0 <= t <= |path[1..]| ensures path[1..][..t] == path[..t + 1][1..] {}
      }
    }
  }

  /** If the empty path is matched, so is every path. */
  lemma {:induction false} MatchesEmptyPath(pattern: seq<string>, path: seq<string>)
    requires pattern != [] && PathMatches(pattern, [])
    ensures PathMatches(pattern, path)
    decreases |pattern|
  {
    var none: seq<string> := [];
    DoubleStarStep(pattern, none);
    if |pattern| == 1 {
      assert path[|path|..] == [];
    } else {
      MatchesEmptyPath(pattern[1..], path);
      assert path[0..] == path;
    }
  }

  /** Parent matching is the same as matching with `**` appended, for every non-empty
      pattern and path. */
  lemma ParentMatchIsTrailingDoubleStar(pattern: IgnorePattern, path: seq<string>)
    requires pattern.components != [] && path != []
    ensures Hits(pattern, path) <==> PathMatches(pattern.components + ["**"], path)
  {
    TrailingDoubleStar(pattern.components, path);
    if PathMatches(pattern.components, path[..0]) {
      assert path[..0] == [];
      MatchesEmptyPath(pattern.components, path);
      assert path[..|path|] == path;
    }
  }

  /** A pattern that hits a directory hits everything below it. */
  lemma HitCarriesDown(pattern: IgnorePattern, dir: seq<string>, below: seq<string>)
    requires Hits(pattern, dir)
    ensures Hits(pattern, dir + below)
  {
    var take :| 1 <= take <= |dir| && PathMatches(pattern.components, dir[..take]);
    assert (dir + below)[..take] == dir[..take];
  }

  /** The last pattern that hits the path excludes it (an exclusion, not a `!`). */
  ghost predicate LastHitExcludes(patterns: seq<IgnorePattern>, path: seq<string>) {
    exists i :: && 0 <= i < |patterns| && !patterns[i].negated && Hits(patterns[i], path)
                && forall j :: i < j < |patterns| ==> !Hits(patterns[j], path)
  }

  /** Which patterns come after a hit, and that none at all excludes nothing. */
  lemma LastHitMeaning(before: seq<IgnorePattern>, p: IgnorePattern, after: seq<IgnorePattern>, path: seq<string>)
    requires forall q :: q in after ==> !exists take :: 1 <= take <= |path| && PathMatches(q.components, path[..take])
    ensures (exists take :: 1 <= take <= |path| && PathMatches(p.components, path[..take])) ==>
      (LastHitExcludes(before + [p] + after, path) <==> !p.negated)
    ensures !LastHitExcludes(after, path)
  {
    var all := before + [p] + after;
    assert all[|before|] == p;
    assert forall j :: |before| < j < |all| ==> all[j] == after[j - |before| - 1] && all[j] in after;
    assert forall q :: q in after ==> !Hits(q, path);
    if Hits(p, path) && !p.negated {
      assert !all[|before|].negated && Hits(all[|before|], path);
    }
  }

  /** Consults every pattern in order and keeps the polarity of the last that hits. */
  method Excludes(patterns: seq<IgnorePattern>, path: seq<string>) returns (excluded: bool)
    ensures excluded <==> LastHitExcludes(patterns, path)
  {
    excluded := false;
    if path == [] {
      return;
    }
    for k := 0 to |patterns|
      invariant excluded <==> LastHitExcludes(patterns[..k], path)
    {
      var hit := MatchesOrParent(patterns[k], path);
      LastHitSnoc(patterns[..k], patterns[k], path);
      assert patterns[..k + 1] == patterns[..k] + [patterns[k]];
      if hit {
        excluded := !patterns[k].negated;
      }
    }
    assert patterns[..|patterns|] == patterns;
  }

  lemma LastHitSnoc(patterns: seq<IgnorePattern>, p: IgnorePattern, path: seq<string>)
    ensures LastHitExcludes(patterns + [p], path)
       <==> if Hits(p, path) then !p.negated else LastHitExcludes(patterns, path)
  {
    var all := patterns + [p];
    assert all[|patterns|] == p;
    assert forall i :: 0 <= i < |patterns| ==> all[i] == patterns[i];
    if !Hits(p, path) && LastHitExcludes(patterns, path) {
      var i :| && 0 <= i < |patterns| && !patterns[i].negated && Hits(patterns[i], path)
               && forall j :: i < j < |patterns| ==> !Hits(patterns[j], path);
      assert !all[i].negated && Hits(all[i], path);
    }
  }

  /** An excluded directory excludes what is below it, whenever no `!` pattern reaches
      further down than the directory itself. */
  lemma ExcludedDirectoryCarriesDown(patterns: seq<IgnorePattern>, dir: seq<string>, below: seq<string>)
    requires LastHitExcludes(patterns, dir)
    requires forall p :: p in patterns && p.negated && Hits(p, dir + below) ==> Hits(p, dir)
    ensures LastHitExcludes(patterns, dir + below)
    decreases |patterns|
  {
    var n := |patterns| - 1;
    var init, p := patterns[..n], patterns[n];
    assert patterns == init + [p];
    LastHitSnoc(init, p, dir);
    LastHitSnoc(init, p, dir + below);
    if Hits(p, dir) {
      HitCarriesDown(p, dir, below);
    } else {
      ExcludedDirectoryCarriesDown(init, dir, below);
    }
  }
}
