/** Reading .dockerignore text into patterns, and paths into components. */
module DockerIgnoreParse {
  import opened Wrappers
  import opened DockerIgnore
  import opened Text

  // ----- components

  predicate Clean(c: string) {
    c != "" && c != "." && '/' !in c
  }

  function Keep(pieces: seq<string>): seq<string> {
    if pieces == [] then []
    else if pieces[0] != "" && pieces[0] != "." then [pieces[0]] + Keep(pieces[1..])
    else Keep(pieces[1..])
  }

  /** The '/'-separated components of `s`, without the empty and "." ones. */
  function Components(s: string): seq<string> {
    Keep(Split(s, '/'))
  }

  method SplitComponents(s: string) returns (out: seq<string>)
    ensures out == Components(s)
  {
    out := [];
    var at := 0;
    assert s[0..] == s;
    while at < |s|
      invariant 0 <= at <= |s|
      invariant out + Components(s[at..]) == Components(s)
      decreases |s| - at
    {
      var sep := Find(s, '/', at);
      var part := s[at..sep];
      NextComponent(s, at, sep, out);
      if part != "" && part != "." {
        out := out + [part];
      }
      if sep == |s| {
        assert out + [] == out;
        return;
      }
      at := sep + 1;
    }
    assert s[at..] == [] && out + [] == out;
  }

  lemma NextComponent(s: string, at: nat, sep: nat, out: seq<string>)
    requires at <= sep <= |s| && '/' !in s[at..sep] && (sep < |s| ==> s[sep] == '/')
    ensures var part := s[at..sep];
      out + Components(s[at..])
      == (if part != "" && part != "." then out + [part] else out)
         + (if sep == |s| then [] else Components(s[sep + 1..]))
  {
    var part := s[at..sep];
    if sep == |s| {
      assert s[at..] == part;
      SplitSingle(part, '/');
      assert [part][1..] == [] && Keep([]) == [];
      assert Keep([part]) == if part != "" && part != "." then [part] else [];
      assert forall o: seq<string> :: o + [] == o;
    } else {
      var rest := Components(s[sep + 1..]);
      assert s[at..] == part + ['/'] + s[sep + 1..];
      SplitCons(part, s[sep + 1..], '/');
      assert out + ([part] + rest) == (out + [part]) + rest;
    }
  }

  lemma {:induction false} KeepIsIdentity(cs: seq<string>)
    requires forall c :: c in cs ==> Clean(c)
    ensures Keep(cs) == cs
    decreases |cs|
  {
    if cs == [] {
    } else {
      assert Clean(cs[0]);
      KeepIsIdentity(cs[1..]);
    }
  }

  lemma {:induction false} KeepSnocEmpty(pieces: seq<string>)
    ensures Keep(pieces + [[]]) == Keep(pieces)
    decreases |pieces|
  {
    if pieces == [] {
    } else {
      assert (pieces + [[]])[1..] == pieces[1..] + [[]];
      KeepSnocEmpty(pieces[1..]);
    }
  }

  lemma {:induction false} KeepElements(pieces: seq<string>)
    ensures forall c :: c in Keep(pieces) ==> c in pieces && c != "" && c != "."
    decreases |pieces|
  {
    if pieces == [] {
    } else {
      KeepElements(pieces[1..]);
    }
  }

  /** Components are clean, and clean components survive joining and re-splitting. */
  lemma ComponentsRoundTrip(s: string, cs: seq<string>)
    ensures forall c :: c in Components(s) ==> Clean(c)
    ensures (forall c :: c in cs ==> Clean(c)) ==> Components(Join(cs, '/')) == cs
  {
    KeepElements(Split(s, '/'));
    SplitPiecesAreFree(s, '/');
    if forall c :: c in cs ==> Clean(c) {
      if cs != [] {
        SplitJoin(cs, '/');
      }
      KeepIsIdentity(cs);
    }
  }

  lemma {:induction false} KeepAppend(a: seq<string>, b: seq<string>)
    ensures Keep(a + b) == Keep(a) + Keep(b)
    decreases |a|
  {
    if a == [] {
      assert a + b == b;
    } else {
      assert (a + b)[1..] == a[1..] + b;
      KeepAppend(a[1..], b);
    }
  }

  /** What the components are: a slash separates, and what holds none is one component, but
      the empty text and "." are none. */
  lemma ComponentsMeaning(a: string, b: string)
    ensures Components(a + "/" + b) == Components(a) + Components(b)
    ensures '/' !in a ==> Components(a) == if a == "" || a == "." then [] else [a]
  {
    SplitAtSeparator(a, b, '/');
    KeepAppend(Split(a, '/'), Split(b, '/'));
    if '/' !in a {
      SplitSingle(a, '/');
      assert [a][1..] == [];
    }
  }

  // ----- lines

  predicate Blank(c: char) {
    c == ' ' || c == '\t' || c == '\r'
  }

  /** `r` is `s` without the blanks around it. */
  ghost predicate IsTrimmed(s: string, r: string) {
    && (r != [] ==> !Blank(r[0]) && !Blank(r[|r| - 1]))
    && exists a, b :: 0 <= a <= b <= |s| && r == s[a..b] && Surrounded(s, a, b)
  }

  ghost predicate Surrounded(s: string, a: nat, b: nat)
    requires a <= b <= |s|
  {
    && (forall i :: 0 <= i < a ==> Blank(s[i]))
    && (forall i :: b <= i < |s| ==> Blank(s[i]))
  }

  function TrimFront(s: string): string {
    if s != [] && Blank(s[0]) then TrimFront(s[1..]) else s
  }

  function TrimBack(s: string): string {
    if s != [] && Blank(s[|s| - 1]) then TrimBack(s[..|s| - 1]) else s
  }

  function Trimmed(s: string): string {
    TrimBack(TrimFront(s))
  }

  method Trim(s: string) returns (r: string)
    ensures r == Trimmed(s)
    ensures IsTrimmed(s, r)
  {
    var a, b := 0, |s|;
    assert s[0..] == s;
    while a < b && Blank(s[a])
      invariant 0 <= a <= b == |s|
      invariant forall i :: 0 <= i < a ==> Blank(s[i])
      invariant TrimFront(s[a..]) == TrimFront(s)
    {
      assert s[a..][1..] == s[a + 1..];
      a := a + 1;
    }
    assert s[a..b] == s[a..];
    while a < b && Blank(s[b - 1])
      invariant 0 <= a <= b <= |s|
      invariant a < b ==> !Blank(s[a])
      invariant Surrounded(s, a, b)
      invariant TrimBack(s[a..b]) == Trimmed(s)
    {
      assert s[a..b][..b - a - 1] == s[a..b - 1];
      b := b - 1;
    }
    return s[a..b];
  }

  lemma {:induction false} FrontTrimmed(blanks: string, s: string)
    requires (forall c :: c in blanks ==> Blank(c)) && (s == "" || !Blank(s[0]))
    ensures TrimFront(blanks + s) == s
    decreases |blanks|
  {
    if blanks == "" {
      assert blanks + s == s;
    } else {
      assert (blanks + s)[1..] == blanks[1..] + s && blanks[0] in blanks;
      FrontTrimmed(blanks[1..], s);
    }
  }

  lemma {:induction false} BackTrimmed(s: string, blanks: string)
    requires (forall c :: c in blanks ==> Blank(c)) && (s == "" || !Blank(s[|s| - 1]))
    ensures TrimBack(s + blanks) == s
    decreases |blanks|
  {
    if blanks == "" {
      assert s + blanks == s;
    } else {
      var n := |blanks| - 1;
      assert (s + blanks)[..|s| + n] == s + blanks[..n] && blanks[n] in blanks;
      BackTrimmed(s, blanks[..n]);
    }
  }

  /** Spaces, tabs and carriage returns go from both ends, and nothing else does. */
  lemma TrimMeaning(left: string, s: string, right: string)
    requires forall c :: c in left + right ==> c == ' ' || c == '\t' || c == '\r'
    requires s != "" ==> s[0] != ' ' && s[0] != '\t' && s[0] != '\r'
    requires s != "" ==> s[|s| - 1] != ' ' && s[|s| - 1] != '\t' && s[|s| - 1] != '\r'
    ensures Trimmed(left + s + right) == s
  {
    assert forall c :: c in left ==> c in left + right;
    assert forall c :: c in right ==> c in left + right;
    if s == "" {
      assert left + s + right == (left + right) + "";
      FrontTrimmed(left + right, "");
    } else {
      assert left + s + right == left + (s + right);
      FrontTrimmed(left, s + right);
      BackTrimmed(s, right);
    }
  }

  /** Drops leading "./" and then "/" repetitions and trailing "/" repetitions. */
  method StripSlashes(line: string) returns (r: string)
    ensures Components(r) == Components(line)
    ensures r == [] || (r[0] != '/' && r[|r| - 1] != '/')
  {
    r := line;
    while 2 <= |r| && r[..2] == "./"
      invariant Components(r) == Components(line)
    {
      assert r == "." + ['/'] + r[2..];
      SplitCons(".", r[2..], '/');
      r := r[2..];
    }
    while r != [] && r[0] == '/'
      invariant Components(r) == Components(line)
    {
      r := r[1..];
    }
    while r != [] && r[|r| - 1] == '/'
      invariant Components(r) == Components(line)
      invariant r == [] || r[0] != '/'
    {
      ghost var shorter := r[..|r| - 1];
      assert r == shorter + ['/'];
      SplitSnocSep(shorter, '/');
      KeepSnocEmpty(Split(shorter, '/'));
      r := r[..|r| - 1];
    }
  }

  /** What one line means: nothing, or a pattern. */
  function LinePattern(raw: string): Option<IgnorePattern> {
    var line := Trimmed(raw);
    if line == [] || line[0] == '#' then None
    else
      var negated := line[0] == '!';
      var cs := Components(if negated then Trimmed(line[1..]) else line);
      if cs == [] then None else Some(IgnorePattern(cs, negated))
  }

  /** A line by its text: nothing but blanks, a comment, a `!` pattern, or a plain pattern;
      without a component there is no pattern. */
  lemma LineMeaning(left: string, line: string, right: string)
    requires forall c :: c in left + right ==> c == ' ' || c == '\t' || c == '\r'
    requires line != "" ==> line[0] != ' ' && line[0] != '\t' && line[0] != '\r'
    requires line != "" ==> line[|line| - 1] != ' ' && line[|line| - 1] != '\t' && line[|line| - 1] != '\r'
    ensures line == "" ==> LinePattern(left + line + right) == None
    ensures line != "" && line[0] == '#' ==> LinePattern(left + line + right) == None
    ensures line != "" && line[0] == '!' ==>
      var cs := Components(Trimmed(line[1..]));
      LinePattern(left + line + right) == if cs == [] then None else Some(IgnorePattern(cs, true))
    ensures line != "" && line[0] != '#' && line[0] != '!' ==>
      var cs := Components(line);
      LinePattern(left + line + right) == if cs == [] then None else Some(IgnorePattern(cs, false))
  {
    TrimMeaning(left, line, right);
    hide Trimmed, Components;
  }

  function Entry(p: Option<IgnorePattern>): seq<IgnorePattern> {
    if p.None? then [] else [p.value]
  }

  /** What the unread rest of the text still contributes. */
  function Unread(text: string, at: nat): seq<IgnorePattern>
    requires at <= |text|
  {
    LinesPatterns(Split(text[at..], '\n'))
  }

  function LinesPatterns(lines: seq<string>): seq<IgnorePattern> {
    if lines == [] then []
    else
      Entry(LinePattern(lines[0])) + LinesPatterns(lines[1..])
  }

  /** Reads one line; the slash stripping never changes the components. */
  method ParseLine(raw: string) returns (r: Option<IgnorePattern>)
    ensures r == LinePattern(raw)
  {
    var line := Trim(raw);
    if line == [] || line[0] == '#' {
      return None;
    }
    var negated := false;
    if line[0] == '!' {
      negated := true;
      line := Trim(line[1..]);
      if line == [] {
        return None;
      }
    }
    line := StripSlashes(line);
    var components := SplitComponents(line);
    return if components == [] then None else Some(IgnorePattern(components, negated));
  }

  method ParseDockerIgnore(text: string) returns (out: seq<IgnorePattern>)
    ensures out == LinesPatterns(Split(text, '\n'))
  {
    out := [];
    var at := 0;
    while at < |text|
      invariant 0 <= at <= |text|
      invariant out + Unread(text, at) == Unread(text, 0)
      decreases |text| - at
    {
      var nl := Find(text, '\n', at);
      var pattern := ParseLine(text[at..nl]);
      ReadLine(text, at, nl, out);
      at := if nl == |text| then nl else nl + 1;
      if pattern.Some? {
        out := out + [pattern.value];
      }
    }
    NothingUnread(text);
    assert out + [] == out && text[0..] == text;
  }

  /** Line by line, in order. */
  lemma {:induction false} LinesMeaning(before: seq<string>, line: string, after: seq<string>)
    ensures LinesPatterns([]) == []
    ensures LinesPatterns(before + [line] + after) ==
            LinesPatterns(before) + (if LinePattern(line).Some? then [LinePattern(line).value] else [])
            + LinesPatterns(after)
    decreases |before|
  {
    var lines := before + [line] + after;
    if before == [] {
      assert lines[1..] == after;
    } else {
      assert lines[1..] == before[1..] + [line] + after;
      LinesMeaning(before[1..], line, after);
    }
  }

  /** A line whose first character that is no blank is '#' contributes nothing. */
  lemma CommentsIgnored(before: seq<string>, left: string, comment: string, after: seq<string>)
    requires forall c :: c in left ==> c == ' ' || c == '\t' || c == '\r'
    ensures LinesPatterns(before + [left + "#" + comment] + after) == LinesPatterns(before) + LinesPatterns(after)
  {
    var line := left + "#" + comment;
    LinesMeaning(before, line, after);
    CommentLine(left, comment);
    assert LinesPatterns(before) + [] == LinesPatterns(before);
  }

  lemma CommentLine(left: string, comment: string)
    requires forall c :: c in left ==> c == ' ' || c == '\t' || c == '\r'
    ensures LinePattern(left + "#" + comment) == None
  {
    var tail := "#" + comment;
    assert left + "#" + comment == left + tail;
    FrontTrimmed(left, tail);
    BackKeepsFirst(tail);
  }

  lemma {:induction false} BackKeepsFirst(s: string)
    requires s != "" && !Blank(s[0])
    ensures TrimBack(s) != "" && TrimBack(s)[0] == s[0]
    decreases |s|
  {
    if !Blank(s[|s| - 1]) {
    } else {
      BackKeepsFirst(s[..|s| - 1]);
    }
  }

  lemma {:induction false} EmptyLastLine(lines: seq<string>)
    ensures LinesPatterns(lines + [""]) == LinesPatterns(lines)
    decreases |lines|
  {
    if lines == [] {
      assert LinesPatterns([""]) == Entry(LinePattern("")) + LinesPatterns([]);
    } else {
      assert (lines + [""])[1..] == lines[1..] + [""];
      EmptyLastLine(lines[1..]);
    }
  }

  /** A final newline makes no difference. */
  lemma FinalNewline(text: string)
    ensures LinesPatterns(Split(text + ['\n'], '\n')) == LinesPatterns(Split(text, '\n'))
  {
    SplitSnocSep(text, '\n');
    EmptyLastLine(Split(text, '\n'));
  }

  lemma NothingUnread(text: string)
    ensures Unread(text, |text|) == []
  {
    assert text[|text|..] == [] && Trimmed([]) == [];
    assert Split([], '\n')[1..] == [];
  }

  /** One line off the front of the unread text; a missing final newline changes nothing. */
  lemma ReadLine(text: string, at: nat, nl: nat, out: seq<IgnorePattern>)
    requires at <= nl <= |text| && '\n' !in text[at..nl] && (nl < |text| ==> text[nl] == '\n')
    ensures var p := LinePattern(text[at..nl]);
      out + Unread(text, at)
      == (if p.None? then out else out + [p.value]) + Unread(text, if nl == |text| then nl else nl + 1)
  {
    var line := text[at..nl];
    var entry := Entry(LinePattern(line));
    assert out + [] == out;
    if nl == |text| {
      assert text[at..] == line;
      NothingUnread(text);
      SplitSingle(line, '\n');
      assert [line][1..] == [] && LinesPatterns([]) == [];
      assert LinesPatterns([line]) == entry + [] == entry;
      assert forall o: seq<IgnorePattern> :: o + [] == o;
    } else {
      assert text[at..] == line + ['\n'] + text[nl + 1..];
      SplitCons(line, text[nl + 1..], '\n');
      assert out + (entry + Unread(text, nl + 1)) == (out + entry) + Unread(text, nl + 1);
    }
  }

  // ----- printing a pattern list and reading it back

  function Body(p: IgnorePattern): string {
    Join(p.components, '/')
  }

  function RenderLine(p: IgnorePattern): string {
    (if p.negated then "!" else "") + Body(p)
  }

  function RenderAll(ps: seq<IgnorePattern>): string {
    if ps == [] then [] else RenderLine(ps[0]) + ['\n'] + RenderAll(ps[1..])
  }

  /** Patterns whose text is not taken for a comment, a negation or padding. */
  ghost predicate Printable(p: IgnorePattern) {
    && p.components != [] && (forall c :: c in p.components ==> Clean(c))
    && '\n' !in Body(p) && IsTrimmed(Body(p), Body(p))
    && (Body(p) != [] && !p.negated ==> Body(p)[0] != '#' && Body(p)[0] != '!')
  }

  lemma {:induction false} TrimmedIsIdentity(s: string)
    requires s != [] && !Blank(s[0]) && !Blank(s[|s| - 1])
    ensures Trimmed(s) == s
  {
  }

  lemma LineRoundTrip(p: IgnorePattern)
    requires Printable(p)
    ensures LinePattern(RenderLine(p)) == Some(p) && '\n' !in RenderLine(p)
  {
    var body, line := Body(p), RenderLine(p);
    ComponentsRoundTrip(body, p.components);
    assert body != [] by { assert Keep(Split([], '/')) == []; }
    TrimmedIsIdentity(body);
    TrimmedIsIdentity(line);
    if p.negated {
      assert line[1..] == body;
    } else {
      assert line == body;
    }
  }

  /** Printing a pattern list one line each and parsing the text gives the list back. */
  lemma {:induction false} ParseRender(ps: seq<IgnorePattern>)
    requires forall p :: p in ps ==> Printable(p)
    ensures LinesPatterns(Split(RenderAll(ps), '\n')) == ps
    decreases |ps|
  {
    if ps == [] {
      assert LinePattern([]) == None;
    } else {
      LineRoundTrip(ps[0]);
      SplitCons(RenderLine(ps[0]), RenderAll(ps[1..]), '\n');
      ParseRender(ps[1..]);
    }
  }

  /** The whole decision for a path given as text. */
  method DockerIgnoreExcludes(patterns: seq<IgnorePattern>, relPath: string) returns (excluded: bool)
    ensures excluded <==> LastHitExcludes(patterns, Components(relPath))
  {
    var path := SplitComponents(relPath);
    excluded := Excludes(patterns, path);
  }
}
