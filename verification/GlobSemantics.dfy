/** What a .dockerignore component pattern means, independently of how it is matched:
    a pattern is a list of tokens, and a token list matches a name declaratively. */
module GlobSemantics {

  /** An inclusive character range; a single class member is a range with equal ends. */
  datatype Range = Range(lo: char, hi: char)

  /** `Never` stands for an unterminated class: it matches no character at all. */
  datatype Token = Literal(c: char) | AnyChar | Class(ranges: seq<Range>) | Star | Never

  /** Outcome of reading a class body: where it closed, or that it never did. */
  datatype ClassScan = Unterminated | Closed(ranges: seq<Range>, rest: string)

  ghost predicate InClass(ranges: seq<Range>, c: char) {
    exists i :: 0 <= i < |ranges| && ranges[i].lo <= c <= ranges[i].hi
  }

  /** Does the one-character token `t` accept `c`? */
  ghost predicate Accepts(t: Token, c: char) {
    match t
    case Literal(l) => l == c
    case AnyChar => true
    case Class(ranges) => InClass(ranges, c)
    case Star => false
    case Never => false
  }

  /** The declarative semantics: a star stands for any run of characters, every other
      token for exactly one. */
  ghost predicate Matches(ts: seq<Token>, s: string)
    decreases |ts|
  {
    if ts == [] then s == []
    else if ts[0].Star? then exists k :: 0 <= k <= |s| && Matches(ts[1..], s[k..])
    else s != [] && Accepts(ts[0], s[0]) && Matches(ts[1..], s[1..])
  }

  /** One class member at the front of `s`: its range and how many characters it spans.
      A backslash escapes either end; a '-' directly before ']' is an ordinary member. */
  function ClassItem(s: string): (r: (Range, nat))
    requires s != []
    ensures 1 <= r.1 <= |s|
  {
    var e := if s[0] == '\\' && 1 < |s| then 1 else 0;
    if e + 2 < |s| && s[e + 1] == '-' && s[e + 2] != ']' then
      if s[e + 2] == '\\' && e + 3 < |s| then (Range(s[e], s[e + 3]), e + 4)
      else (Range(s[e], s[e + 2]), e + 3)
    else (Range(s[e], s[e]), e + 1)
  }

  /** Reads the class body `s` (what follows '['); a ']' in first position is a member. */
  function ScanClass(s: string, first: bool): (r: ClassScan)
    ensures r.Closed? ==> |r.rest| < |s|
    decreases |s|
  {
    if s == [] then Unterminated
    else if s[0] == ']' && !first then Closed([], s[1..])
    else
      var (range, used) := ClassItem(s);
      match ScanClass(s[used..], false)
      case Unterminated => Unterminated
      case Closed(ranges, rest) => Closed([range] + ranges, rest)
  }

  /** The token list a pattern spells. */
  function Tokenize(p: string): seq<Token>
    decreases |p|
  {
    if p == [] then []
    else if p[0] == '*' then [Star] + Tokenize(p[1..])
    else if p[0] == '?' then [AnyChar] + Tokenize(p[1..])
    else if p[0] == '[' then
      match ScanClass(p[1..], true)
      case Unterminated => [Never]
      case Closed(ranges, rest) => [Class(ranges)] + Tokenize(rest)
    else if p[0] == '\\' && 1 < |p| then [Literal(p[1])] + Tokenize(p[2..])
    else [Literal(p[0])] + Tokenize(p[1..])
  }

  // ----- every token list has a spelling: Tokenize is onto, up to empty classes

  function RenderRanges(rs: seq<Range>): string {
    if rs == [] then "]"
    else ['\\', rs[0].lo, '-', '\\', rs[0].hi] + RenderRanges(rs[1..])
  }

  function Render(ts: seq<Token>): string {
    if ts == [] then []
    else
      (match ts[0]
       case Literal(c) => ['\\', c]
       case AnyChar => "?"
       case Class(ranges) => "[" + RenderRanges(ranges)
       case Star => "*"
       case Never => "[") + Render(ts[1..])
  }

  /** Token lists a pattern can spell: classes are non-empty, and an unterminated class
      swallows everything after it. */
  predicate Spellable(ts: seq<Token>) {
    forall i :: 0 <= i < |ts| ==>
      && (ts[i].Class? ==> ts[i].ranges != [])
      && (ts[i].Never? ==> i == |ts| - 1)
  }

  lemma {:induction false} ScanRendered(rs: seq<Range>, tail: string, first: bool)
    requires rs != [] || !first
    ensures ScanClass(RenderRanges(rs) + tail, first) == Closed(rs, tail)
    decreases |rs|
  {
    var s := RenderRanges(rs) + tail;
    if rs == [] {
      assert s[1..] == tail;
    } else {
      assert s[5..] == RenderRanges(rs[1..]) + tail;
      ScanRendered(rs[1..], tail, false);
      assert ClassItem(s) == (rs[0], 5);
    }
  }

  lemma TokenizeClass(ranges: seq<Range>, tail: string)
    requires ranges != []
    ensures Tokenize("[" + RenderRanges(ranges) + tail) == [Class(ranges)] + Tokenize(tail)
  {
    var p := "[" + RenderRanges(ranges) + tail;
    assert p[1..] == RenderRanges(ranges) + tail;
    ScanRendered(ranges, tail, true);
    hide ScanClass, RenderRanges;
  }

  /** Every spellable token list is what its escaped spelling tokenizes to. */
  lemma {:induction false} TokenizeRender(ts: seq<Token>)
    requires Spellable(ts)
    ensures Tokenize(Render(ts)) == ts
    decreases |ts|
  {
    if ts == [] {
    } else {
      var p, tail := Render(ts), Render(ts[1..]);
      match ts[0]
      case Literal(c) => assert p[2..] == tail; TokenizeRender(ts[1..]);
      case AnyChar => assert p[1..] == tail; TokenizeRender(ts[1..]);
      case Star => assert p[1..] == tail; TokenizeRender(ts[1..]);
      case Never => assert p == "[";
      case Class(ranges) =>
        assert p == "[" + RenderRanges(ranges) + tail;
        TokenizeClass(ranges, tail);
        TokenizeRender(ts[1..]);
    }
  }

  /** Every pattern spells a spellable list, so tokens and patterns describe the same globs. */
  lemma {:induction false} TokenizeSpellable(p: string)
    ensures Spellable(Tokenize(p))
    decreases |p|
  {
    if p == [] {
    } else {
      if p[0] == '[' {
        var scan := ScanClass(p[1..], true);
        if scan.Closed? { TokenizeSpellable(scan.rest); }
      } else if p[0] == '\\' && 1 < |p| {
        TokenizeSpellable(p[2..]);
      } else {
        TokenizeSpellable(p[1..]);
      }
    }
  }

  // ----- facts about matching that the backtracking argument rests on

  /** A star-free segment consumes exactly its own length. */
  lemma {:induction false} SegmentConsumes(seg: seq<Token>, ts: seq<Token>, s: string)
    requires forall t :: t in seg ==> !t.Star?
    requires Matches(seg + ts, s)
    ensures |seg| <= |s| && Matches(ts, s[|seg|..])
    decreases |seg|
  {
    if seg == [] {
      assert seg + ts == ts && s[0..] == s;
    } else {
      assert (seg + ts)[1..] == seg[1..] + ts;
      SegmentConsumes(seg[1..], ts, s[1..]);
      assert s[1..][|seg| - 1..] == s[|seg|..];
    }
  }

  /** A star reached at offset `n` covers whatever a later start would reach. */
  lemma StarUnfold(ts: seq<Token>, s: string, n: nat)
    requires ts != [] && ts[0].Star? && n <= |s|
    ensures Matches(ts, s[n..]) <==> exists k :: n <= k <= |s| && Matches(ts[1..], s[k..])
  {
    forall k | n <= k <= |s| && Matches(ts[1..], s[k..]) ensures Matches(ts, s[n..]) {
      assert s[n..][k - n..] == s[k..];
    }
    if Matches(ts, s[n..]) {
      var j :| 0 <= j <= |s[n..]| && Matches(ts[1..], s[n..][j..]);
      assert s[n..][j..] == s[n + j..];
    }
  }

  /** The empty name is matched by exactly the all-star lists. */
  lemma {:induction false} MatchesEmpty(ts: seq<Token>)
    ensures Matches(ts, []) <==> forall t :: t in ts ==> t.Star?
    decreases |ts|
  {
    if ts == [] {
    } else {
      MatchesEmpty(ts[1..]);
      if ts[0].Star? {
        var e: string := [];
        assert e[0..] == e;
        assert Matches(ts, e) <==> Matches(ts[1..], e);
      }
      assert forall t :: t in ts <==> t == ts[0] || t in ts[1..];
    }
  }
}
