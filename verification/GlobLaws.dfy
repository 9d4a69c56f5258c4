/** What a component pattern matches, stated on its own text: character by character, with
    every way of spelling a class, and without a word about tokens. */
module GlobLaws {
  import opened GlobSemantics
  import opened DockerIgnore

  lemma EmptyPattern(s: string)
    ensures ComponentMatches("", s) <==> s == ""
  {
  }

  /** An ordinary character stands for itself. */
  lemma PlainCharacter(c: char, rest: string, s: string)
    requires c != '*' && c != '?' && c != '[' && c != '\\'
    ensures ComponentMatches([c] + rest, s) <==> s != "" && s[0] == c && ComponentMatches(rest, s[1..])
  {
    assert ([c] + rest)[1..] == rest;
    Head(Literal(c), rest, s);
  }

  /** So does any character behind a backslash. */
  lemma EscapedCharacter(c: char, rest: string, s: string)
    ensures ComponentMatches(['\\', c] + rest, s) <==> s != "" && s[0] == c && ComponentMatches(rest, s[1..])
  {
    assert (['\\', c] + rest)[2..] == rest;
    Head(Literal(c), rest, s);
  }

  /** A backslash with nothing behind it is a backslash. */
  lemma TrailingBackslash(s: string)
    ensures ComponentMatches("\\", s) <==> s == "\\"
  {
    assert "\\"[1..] == "";
    Head(Literal('\\'), "", s);
  }

  lemma QuestionMark(rest: string, s: string)
    ensures ComponentMatches("?" + rest, s) <==> s != "" && ComponentMatches(rest, s[1..])
  {
    assert ("?" + rest)[1..] == rest;
    Head(AnyChar, rest, s);
  }

  lemma Asterisk(rest: string, s: string)
    ensures ComponentMatches("*" + rest, s) <==> exists k :: 0 <= k <= |s| && ComponentMatches(rest, s[k..])
  {
    assert ("*" + rest)[1..] == rest;
    var ts := Tokenize("*" + rest);
    assert ts[1..] == Tokenize(rest);
    assert s[0..] == s;
    StarUnfold(ts, s, 0);
    hide Tokenize, Matches;
    assert forall k :: 0 <= k <= |s| ==> (ComponentMatches(rest, s[k..]) <==> Matches(ts[1..], s[k..]));
  }

  lemma Head(t: Token, rest: string, s: string)
    requires !t.Star?
    ensures Matches([t] + Tokenize(rest), s) <==> s != "" && Accepts(t, s[0]) && ComponentMatches(rest, s[1..])
  {
    assert ([t] + Tokenize(rest))[1..] == Tokenize(rest);
  }

  /** A pattern of ordinary characters matches itself and nothing else. */
  lemma {:induction false} PlainPattern(p: string, s: string)
    requires forall c :: c in p ==> c != '*' && c != '?' && c != '[' && c != '\\'
    ensures ComponentMatches(p, s) <==> s == p
    decreases |p|
  {
    hide ComponentMatches;
    if p == "" {
      EmptyPattern(s);
    } else {
      assert p == [p[0]] + p[1..] && p[0] in p && forall c :: c in p[1..] ==> c in p;
      PlainCharacter(p[0], p[1..], s);
      if s != "" {
        PlainPattern(p[1..], s[1..]);
        assert s == [s[0]] + s[1..];
      }
    }
  }

  // ----- classes

  /** A member of a class as it is written: a character, or two ends of a range; each character
      bare or behind a backslash. */
  datatype Member =
    | One(c: char, escaped: bool)
    | Span(lo: char, loEscaped: bool, hi: char, hiEscaped: bool)

  function Spell(c: char, escaped: bool): string {
    if escaped then ['\\', c] else [c]
  }

  function MemberText(m: Member): string {
    match m
    case One(c, escaped) => Spell(c, escaped)
    case Span(lo, loEscaped, hi, hiEscaped) => Spell(lo, loEscaped) + "-" + Spell(hi, hiEscaped)
  }

  function ClassText(ms: seq<Member>): string {
    if ms == [] then "]" else MemberText(ms[0]) + ClassText(ms[1..])
  }

  /** The text says what it is meant to: a bare character is no backslash, and a ']' only in
      first position or behind a backslash; a single character is not taken for the low end of
      a range, which needs a '-' behind it that is not the last character. */
  predicate Readable(ms: seq<Member>, first: bool) {
    ms == [] ||
    (var next := ClassText(ms[1..]);
     && (match ms[0]
         case One(c, escaped) =>
           && (!escaped ==> c != '\\' && (c == ']' ==> first))
           && !(2 <= |next| && next[0] == '-' && next[1] != ']')
         case Span(lo, loEscaped, hi, hiEscaped) =>
           && (!loEscaped ==> lo != '\\' && (lo == ']' ==> first))
           && (!hiEscaped ==> hi != '\\' && hi != ']'))
     && Readable(ms[1..], false))
  }

  predicate Includes(m: Member, c: char) {
    match m
    case One(d, _) => c == d
    case Span(lo, _, hi, _) => lo <= c <= hi
  }

  function RangeOf(m: Member): Range {
    match m
    case One(c, _) => Range(c, c)
    case Span(lo, _, hi, _) => Range(lo, hi)
  }

  function RangesOf(ms: seq<Member>): seq<Range> {
    seq(|ms|, i requires 0 <= i < |ms| => RangeOf(ms[i]))
  }

  lemma MemberRead(m: Member, ms: seq<Member>, rest: string, first: bool)
    requires Readable([m] + ms, first)
    ensures var s := MemberText(m) + ClassText(ms) + rest;
      && ClassItem(s) == (RangeOf(m), |MemberText(m)|) && s[|MemberText(m)|..] == ClassText(ms) + rest
      && (s[0] == ']' ==> first)
  {
    assert ([m] + ms)[1..] == ms;
    var (text, next) := (MemberText(m), ClassText(ms));
    var s := text + next + rest;
    assert s == text + (next + rest);
    assert next != "" && (next[0] == '-' ==> 2 <= |next|);
    if 2 <= |next| {
      assert s[|text| + 1] == next[1];
    }
    assert s[|text|] == next[0];
  }

  lemma {:induction false} ScanSpelled(ms: seq<Member>, rest: string, first: bool)
    requires Readable(ms, first) && (ms == [] ==> !first)
    ensures ScanClass(ClassText(ms) + rest, first) == Closed(RangesOf(ms), rest)
    decreases |ms|
  {
    if ms == [] {
      assert ("]" + rest)[1..] == rest;
    } else {
      var (m, used) := (ms[0], |MemberText(ms[0])|);
      var s := ClassText(ms) + rest;
      assert ms == [m] + ms[1..];
      MemberRead(m, ms[1..], rest, first);
      ScanSpelled(ms[1..], rest, false);
      assert RangesOf(ms) == [RangeOf(m)] + RangesOf(ms[1..]);
      assert ClassItem(s) == (RangeOf(m), used) && s[used..] == ClassText(ms[1..]) + rest && (s[0] == ']' ==> first);
      hide ClassItem, Readable, ClassText, RangesOf, MemberText;
    }
  }

  lemma ClassTokens(ms: seq<Member>, rest: string)
    requires ms != [] && Readable(ms, true)
    ensures Tokenize("[" + ClassText(ms) + rest) == [Class(RangesOf(ms))] + Tokenize(rest)
  {
    hide ClassText, Readable, ScanClass, Tokenize, RangesOf;
    ScanSpelled(ms, rest, true);
    Bracket(ClassText(ms) + rest, RangesOf(ms), rest);
    assert "[" + ClassText(ms) + rest == "[" + (ClassText(ms) + rest);
  }

  lemma Bracket(body: string, ranges: seq<Range>, rest: string)
    requires ScanClass(body, true) == Closed(ranges, rest)
    ensures Tokenize("[" + body) == [Class(ranges)] + Tokenize(rest)
  {
    hide ScanClass;
    assert ("[" + body)[1..] == body;
  }

  /** A class, however it is spelled, matches one character that some member includes. */
  lemma ClassMatches(ms: seq<Member>, rest: string, s: string)
    requires ms != [] && Readable(ms, true)
    ensures ComponentMatches("[" + ClassText(ms) + rest, s) <==>
      s != "" && (exists m :: m in ms && Includes(m, s[0])) && ComponentMatches(rest, s[1..])
  {
    ClassTokens(ms, rest);
    hide Tokenize, ClassText, Readable, Includes, RangesOf, InClass;
    Head(Class(RangesOf(ms)), rest, s);
    if s != "" {
      MembersInclude(ms, s[0]);
    }
  }

  lemma MembersInclude(ms: seq<Member>, c: char)
    ensures InClass(RangesOf(ms), c) <==> exists m :: m in ms && Includes(m, c)
  {
    var ranges := RangesOf(ms);
    assert forall i :: 0 <= i < |ms| ==> (Includes(ms[i], c) <==> ranges[i].lo <= c <= ranges[i].hi);
    if exists m :: m in ms && Includes(m, c) {
      var m :| m in ms && Includes(m, c);
      var i :| 0 <= i < |ms| && ms[i] == m;
      assert ranges[i].lo <= c <= ranges[i].hi;
    }
  }

  /** A list of ordinary characters is a readable class. */
  lemma {:induction false} PlainList(cs: string)
    requires forall c :: c in cs ==> c != '\\' && c != ']' && c != '-'
    ensures var ms := seq(|cs|, i requires 0 <= i < |cs| => One(cs[i], false));
      Readable(ms, false) && ClassText(ms) == cs + "]"
    decreases |cs|
  {
    var ms := seq(|cs|, i requires 0 <= i < |cs| => One(cs[i], false));
    if cs == "" {
    } else {
      assert cs[0] in cs && forall c :: c in cs[1..] ==> c in cs;
      PlainList(cs[1..]);
      assert 1 < |cs| ==> cs[1] in cs;
      assert ms[1..] == seq(|cs[1..]|, i requires 0 <= i < |cs[1..]| => One(cs[1..][i], false));
      assert cs + "]" == [cs[0]] + (cs[1..] + "]");
    }
  }

  /** "[abc]": exactly the listed characters. */
  lemma ListMatches(cs: string, rest: string, s: string)
    requires cs != "" && forall c :: c in cs ==> c != '\\' && c != ']' && c != '-'
    ensures ComponentMatches("[" + cs + "]" + rest, s) <==> s != "" && s[0] in cs && ComponentMatches(rest, s[1..])
  {
    var ms := seq(|cs|, i requires 0 <= i < |cs| => One(cs[i], false));
    PlainList(cs);
    assert "[" + cs + "]" + rest == "[" + ClassText(ms) + rest;
    ClassMatches(ms, rest, s);
    hide ComponentMatches, ClassText;
    if s != "" {
      assert s[0] in cs ==> One(s[0], false) in ms by {
        if s[0] in cs {
          var i :| 0 <= i < |cs| && cs[i] == s[0];
          assert ms[i] == One(s[0], false);
        }
      }
    }
  }

  /** "[a-z]": the characters between the ends. */
  lemma SpanMatches(lo: char, hi: char, rest: string, s: string)
    requires lo != '\\' && hi != '\\' && hi != ']'
    ensures ComponentMatches("[" + [lo, '-', hi] + "]" + rest, s) <==>
      s != "" && lo <= s[0] <= hi && ComponentMatches(rest, s[1..])
  {
    var m := Span(lo, false, hi, false);
    assert [m][1..] == [] && ClassText([m]) == [lo, '-', hi] + "]";
    assert "[" + [lo, '-', hi] + "]" + rest == "[" + ClassText([m]) + rest;
    assert Readable([m], true);
    ClassMatches([m], rest, s);
    hide ComponentMatches, ClassText, Readable;
    assert m in [m] && forall n :: n in [m] <==> n == m;
  }

  /** A '-' before the closing bracket, a ']' in first place and a '^' are members like others. */
  lemma OddMembers(c: char, rest: string, s: string)
    requires c != '\\' && c != ']' && c != '-'
    ensures ComponentMatches("[" + [c, '-'] + "]" + rest, s) <==>
      s != "" && (s[0] == c || s[0] == '-') && ComponentMatches(rest, s[1..])
    ensures ComponentMatches("[]" + [c] + "]" + rest, s) <==>
      s != "" && (s[0] == ']' || s[0] == c) && ComponentMatches(rest, s[1..])
    ensures ComponentMatches("[^" + [c] + "]" + rest, s) <==>
      s != "" && (s[0] == '^' || s[0] == c) && ComponentMatches(rest, s[1..])
  {
    TwoMembers(c, '-', rest, s);
    TwoMembers(']', c, rest, s);
    TwoMembers('^', c, rest, s);
    assert "[]" + [c] + "]" + rest == "[" + [']', c] + "]" + rest;
    assert "[^" + [c] + "]" + rest == "[" + ['^', c] + "]" + rest;
  }

  lemma TwoMembers(c: char, d: char, rest: string, s: string)
    requires c != '\\' && d != '\\' && d != ']'
    ensures ComponentMatches("[" + [c, d] + "]" + rest, s) <==>
      s != "" && (s[0] == c || s[0] == d) && ComponentMatches(rest, s[1..])
  {
    var ms := [One(c, false), One(d, false)];
    assert ms[1..] == [One(d, false)] && ms[1..][1..] == [];
    assert ClassText(ms[1..]) == [d] + "]" && ClassText(ms) == [c, d] + "]";
    assert "[" + [c, d] + "]" + rest == "[" + ClassText(ms) + rest;
    TwoReadable(c, d);
    ClassMatches(ms, rest, s);
    hide ComponentMatches, ClassText, Readable;
    assert ms[0] in ms && ms[1] in ms;
    assert forall m :: m in ms <==> m == One(c, false) || m == One(d, false);
  }

  lemma TwoReadable(c: char, d: char)
    requires c != '\\' && d != '\\' && d != ']'
    ensures Readable([One(c, false), One(d, false)], true)
  {
    var (ms, last) := ([One(c, false), One(d, false)], [One(d, false)]);
    assert ms[1..] == last && last[1..] == [] && ClassText([]) == "]";
    assert ClassText(last) == [d, ']'];
    assert Readable([], false) && Readable(last, false);
  }

  /** A class that is never closed matches nothing, whatever follows the bracket. */
  lemma {:induction false} NeverClosed(body: string, first: bool)
    requires forall i :: 0 <= i < |body| && body[i] == ']' ==> i == 0 && first
    ensures ScanClass(body, first) == Unterminated
    decreases |body|
  {
    if body == "" {
    } else {
      var used := ClassItem(body).1;
      NeverClosed(body[used..], false);
    }
  }

  lemma UnclosedMatchesNothing(body: string, s: string)
    requires forall i :: 1 <= i < |body| ==> body[i] != ']'
    ensures !ComponentMatches("[" + body, s)
  {
    NeverClosed(body, true);
    assert ("[" + body)[1..] == body;
    assert Tokenize("[" + body) == [Never];
  }
}
