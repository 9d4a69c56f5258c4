/** Quoting values and an argument vector into one POSIX shell command, against the shell's
    own tokenizing (sections 2.2.1, 2.2.2 and 2.10.2 of POSIX.1-2017 XCU). */
module ShellQuote {
  import opened Wrappers

  const NUL := 0 as char

  // ----- the reader

  /** A word before quote removal: its characters, and which of them were quoted. */
  datatype WordChar = WordChar(c: char, quoted: bool)
  type Word = seq<WordChar>

  predicate Blank(c: char) {
    c == ' ' || c == '\t'
  }

  /** Characters that mean more than themselves when not quoted. */
  predicate Special(c: char) {
    c in "|&;<>()$`\"*?[]#~{}!%\n\r"
  }

  predicate NameStart(c: char) {
    'A' <= c <= 'Z' || 'a' <= c <= 'z' || c == '_'
  }

  predicate NameChar(c: char) {
    NameStart(c) || '0' <= c <= '9'
  }

  predicate ValidName(key: string) {
    key != "" && NameStart(key[0]) && forall c :: c in key ==> NameChar(c)
  }

  /** Splits a line into words. None: it is unterminated, holds a NUL, or would make the
      shell do more than split words. */
  function Lex(s: string, cur: Option<Word>, quoted: bool): Option<seq<Word>>
    decreases |s|
  {
    var word := if cur.Some? then cur.value else [];
    if s == "" then (if quoted then None else Some(if cur.Some? then [word] else []))
    else if s[0] == NUL then None
    else if quoted then
      if s[0] == '\'' then Lex(s[1..], Some(word), false)
      else Lex(s[1..], Some(word + [WordChar(s[0], true)]), true)
    else if s[0] == '\'' then Lex(s[1..], Some(word), true)
    else if s[0] == '\\' then
      if |s| == 1 || s[1] == NUL then None
      else if s[1] == '\n' then Lex(s[2..], cur, false)
      else Lex(s[2..], Some(word + [WordChar(s[1], true)]), false)
    else if Blank(s[0]) then
      match Lex(s[1..], None, false)
      case None => None
      case Some(words) => Some((if cur.Some? then [word] else []) + words)
    else if Special(s[0]) then None
    else Lex(s[1..], Some(word + [WordChar(s[0], false)]), false)
  }

  /** The word after quote removal. */
  function Unquoted(w: Word): (s: string)
    ensures |s| == |w|
  {
    seq(|w|, i requires 0 <= i < |w| => w[i].c)
  }

  /** How many unquoted name characters a word starts with. */
  function NameLength(w: Word): (n: nat)
    ensures n <= |w| && forall i :: 0 <= i < n ==> !w[i].quoted && NameChar(w[i].c)
  {
    if w == [] || w[0].quoted || !NameChar(w[0].c) then 0 else 1 + NameLength(w[1..])
  }

  /** A word is an assignment when an unquoted name and an unquoted '=' lead it. */
  predicate IsAssignment(w: Word) {
    var n := NameLength(w);
    0 < n < |w| && NameStart(w[0].c) && w[n] == WordChar('=', false)
  }

  /** A simple command: leading assignments, then the argument vector. */
  datatype Command = Command(env: seq<(string, string)>, argv: seq<string>)

  function Texts(words: seq<Word>): seq<string> {
    if words == [] then [] else [Unquoted(words[0])] + Texts(words[1..])
  }

  function ToCommand(words: seq<Word>): Command {
    if words != [] && IsAssignment(words[0]) then
      var n := NameLength(words[0]);
      var rest := ToCommand(words[1..]);
      Command([(Unquoted(words[0][..n]), Unquoted(words[0][n + 1..]))] + rest.env, rest.argv)
    else Command([], Texts(words))
  }

  function Read(script: string): Option<Command> {
    var words := Lex(script, None, false);
    if words.None? then None else Some(ToCommand(words.value))
  }

  // ----- the writer

  /** The quoted text of `s` after its opening quote, closing quote included. */
  function QuotedBody(s: string): string {
    if s == "" then "'"
    else (if s[0] == '\'' then "'\\''" else [s[0]]) + QuotedBody(s[1..])
  }

  function Quoted(s: string): string {
    "'" + QuotedBody(s)
  }

  /** Single quotes around the text, and '\'' for each one inside. */
  lemma QuotedMeaning(c: char, rest: string)
    ensures Quoted("") == "''"
    ensures c != '\'' ==> Quoted([c] + rest) == "'" + [c] + Quoted(rest)[1..]
    ensures Quoted("'" + rest) == "'" + "'\\''" + Quoted(rest)[1..]
  {
    assert ([c] + rest)[1..] == rest && ("'" + rest)[1..] == rest;
    assert Quoted(rest)[1..] == QuotedBody(rest);
  }

  method ShellQuoteText(s: string) returns (out: string)
    ensures out == Quoted(s)
  {
    out := "'";
    assert s[0..] == s;
    for i := 0 to |s|
      invariant out + QuotedBody(s[i..]) == Quoted(s)
    {
      var c := s[i];
      var piece := if c == '\'' then "'\\''" else [c];
      assert s[i..][1..] == s[i + 1..];
      assert out + (piece + QuotedBody(s[i + 1..])) == (out + piece) + QuotedBody(s[i + 1..]);
      out := out + piece;
    }
    out := out + "'";
  }

  function Assignments(env: seq<(string, string)>): string {
    if env == [] then ""
    else env[0].0 + "=" + Quoted(env[0].1) + " " + Assignments(env[1..])
  }

  function Arguments(argv: seq<string>): string {
    if argv == [] then ""
    else if |argv| == 1 then Quoted(argv[0])
    else Quoted(argv[0]) + " " + Arguments(argv[1..])
  }

  function Script(env: seq<(string, string)>, argv: seq<string>): string {
    Assignments(env) + Arguments(argv)
  }

  lemma {:induction false} AssignmentsSnoc(env: seq<(string, string)>, e: (string, string))
    ensures Assignments(env + [e]) == Assignments(env) + (e.0 + "=" + Quoted(e.1) + " ")
    decreases |env|
  {
    if env == [] {
      assert [e][1..] == [] && Assignments([]) == "";
      assert e.0 + "=" + Quoted(e.1) + " " + "" == e.0 + "=" + Quoted(e.1) + " ";
    } else {
      assert (env + [e])[1..] == env[1..] + [e];
      AssignmentsSnoc(env[1..], e);
    }
  }

  lemma {:induction false} ArgumentsSnoc(argv: seq<string>, a: string)
    ensures Arguments(argv + [a]) == Arguments(argv) + ((if argv == [] then "" else " ") + Quoted(a))
    decreases |argv|
  {
    hide Quoted;
    if argv == [] {
      assert "" + ("" + Quoted(a)) == Quoted(a);
    } else {
      assert (argv + [a])[1..] == argv[1..] + [a];
      ArgumentsSnoc(argv[1..], a);
      Regroup(Quoted(argv[0]), Arguments(argv[1..]), Quoted(a));
    }
  }

  lemma Regroup(first: string, rest: string, last: string)
    ensures first + " " + (rest + (" " + last)) == (first + " " + rest) + (" " + last)
    ensures first + " " + ("" + ("" + last)) == first + (" " + last)
  {
  }

  method BuildEnvWrappedScript(argv: seq<string>, env: seq<(string, string)>) returns (script: string)
    ensures script == Script(env, argv)
    ensures Read(script) == Some(Command(env, argv)) <==> Recoverable(env, argv)
  {
    hide Quoted, Read, Recoverable;
    script := "";
    for i := 0 to |env|
      invariant script == Assignments(env[..i])
    {
      assert env[..i + 1] == env[..i] + [env[i]];
      AssignmentsSnoc(env[..i], env[i]);
      var value := ShellQuoteText(env[i].1);
      script := script + (env[i].0 + "=" + value + " ");
    }
    assert env[..|env|] == env;
    for i := 0 to |argv|
      invariant script == Assignments(env) + Arguments(argv[..i])
    {
      assert argv[..i + 1] == argv[..i] + [argv[i]];
      ArgumentsSnoc(argv[..i], argv[i]);
      var arg := ShellQuoteText(argv[i]);
      script := script + ((if i != 0 then " " else "") + arg);
    }
    assert argv[..|argv|] == argv;
    ScriptRoundTrip(env, argv);
  }

  // ----- what was written is what is read

  function QuotedWord(s: string): Word {
    seq(|s|, i requires 0 <= i < |s| => WordChar(s[i], true))
  }

  function PlainWord(s: string): Word {
    seq(|s|, i requires 0 <= i < |s| => WordChar(s[i], false))
  }

  lemma {:induction false} LexQuotedBody(s: string, rest: string, w: Word)
    ensures Lex(QuotedBody(s) + rest, Some(w), true) ==
            if NUL in s then None else Lex(rest, Some(w + QuotedWord(s)), false)
    decreases |s|
  {
    if s == "" {
      assert ("'" + rest)[1..] == rest && w + QuotedWord(s) == w;
    } else {
      var next := QuotedBody(s[1..]) + rest;
      var more := w + [WordChar(s[0], true)];
      assert s == [s[0]] + s[1..];
      assert more + QuotedWord(s[1..]) == w + QuotedWord(s);
      if s[0] == '\'' {
        LexEscapedQuote(next, w);
        assert QuotedBody(s) + rest == "'\\''" + next;
        LexQuotedBody(s[1..], rest, more);
      } else {
        assert QuotedBody(s) + rest == [s[0]] + next;
        assert ([s[0]] + next)[1..] == next;
        if s[0] != NUL {
          LexQuotedBody(s[1..], rest, more);
        }
      }
    }
  }

  /** Closing, an escaped quote, and opening again. */
  lemma LexEscapedQuote(next: string, w: Word)
    ensures Lex("'\\''" + next, Some(w), true) == Lex(next, Some(w + [WordChar('\'', true)]), true)
  {
    var s := "'\\''" + next;
    var s1 := s[1..];
    var s2 := s1[2..];
    assert s1[0] == '\\' && s1[1] == '\'' && s2[0] == '\'' && s2[1..] == next;
    var more := Some(w + [WordChar('\'', true)]);
    assert Lex(s2, more, false) == Lex(next, more, true);
    assert Lex(s1, Some(w), false) == Lex(s2, more, false);
  }

  lemma LexQuoted(s: string, rest: string, cur: Option<Word>)
    ensures var w := if cur.Some? then cur.value else [];
      Lex(Quoted(s) + rest, cur, false) == if NUL in s then None else Lex(rest, Some(w + QuotedWord(s)), false)
  {
    assert (Quoted(s) + rest)[1..] == QuotedBody(s) + rest;
    LexQuotedBody(s, rest, if cur.Some? then cur.value else []);
  }

  lemma {:induction false} LexName(key: string, rest: string, w: Word)
    requires forall c :: c in key ==> NameChar(c)
    ensures Lex(key + rest, Some(w), false) == Lex(rest, Some(w + PlainWord(key)), false)
    decreases |key|
  {
    if key == "" {
      assert key + rest == rest && w + PlainWord(key) == w;
    } else {
      assert NameChar(key[0]);
      assert (key + rest)[1..] == key[1..] + rest;
      LexName(key[1..], rest, w + [WordChar(key[0], false)]);
      assert w + [WordChar(key[0], false)] + PlainWord(key[1..]) == w + PlainWord(key);
    }
  }

  /** Keys are names, and nothing holds a NUL. */
  ghost predicate Recoverable(env: seq<(string, string)>, argv: seq<string>) {
    && (forall e :: e in env ==> ValidName(e.0) && NUL !in e.1)
    && (forall a :: a in argv ==> NUL !in a)
  }

  function AssignmentWord(e: (string, string)): Word {
    PlainWord(e.0) + [WordChar('=', false)] + QuotedWord(e.1)
  }

  /** A blank ends the word before it. */
  lemma LexBlank(w: Word, rest: string)
    ensures Lex(" " + rest, Some(w), false) ==
            match Lex(rest, None, false)
            case None => None
            case Some(words) => Some([w] + words)
  {
    assert (" " + rest)[1..] == rest;
  }

  lemma LexEquals(w: Word, rest: string)
    ensures Lex("=" + rest, Some(w), false) == Lex(rest, Some(w + [WordChar('=', false)]), false)
  {
    assert ("=" + rest)[1..] == rest;
  }

  /** One assignment off the front. */
  lemma LexAssignment(e: (string, string), rest: string)
    requires ValidName(e.0)
    ensures Lex(e.0 + "=" + Quoted(e.1) + " " + rest, None, false) ==
            if NUL in e.1 then None
            else match Lex(rest, None, false)
                 case None => None
                 case Some(words) => Some([AssignmentWord(e)] + words)
  {
    hide Lex, Quoted;
    var tail := Quoted(e.1) + (" " + rest);
    assert e.0 + "=" + Quoted(e.1) + " " + rest == e.0 + ("=" + tail);
    LexNameStart(e.0, "=" + tail);
    LexEquals(PlainWord(e.0), tail);
    LexQuoted(e.1, " " + rest, Some(PlainWord(e.0) + [WordChar('=', false)]));
    LexBlank(AssignmentWord(e), rest);
  }

  lemma LexNameStart(key: string, rest: string)
    requires ValidName(key)
    ensures Lex(key + rest, None, false) == Lex(rest, Some(PlainWord(key)), false)
  {
    assert NameChar(key[0]);
    assert (key + rest)[1..] == key[1..] + rest;
    LexName(key[1..], rest, [WordChar(key[0], false)]);
    assert [] + [WordChar(key[0], false)] == [WordChar(key[0], false)];
    assert [WordChar(key[0], false)] + PlainWord(key[1..]) == PlainWord(key);
  }

  lemma {:induction false} LexArguments(argv: seq<string>)
    ensures Lex(Arguments(argv), None, false) ==
            if exists a :: a in argv && NUL in a then None else Some(QuotedWords(argv))
    decreases |argv|
  {
    if argv == [] {
    } else {
      assert argv[0] in argv && forall a :: a in argv <==> a == argv[0] || a in argv[1..];
      LexArguments(argv[1..]);
      hide Lex, Quoted;
      assert [] + QuotedWord(argv[0]) == QuotedWord(argv[0]);
      if |argv| == 1 {
        LexQuoted(argv[0], "", None);
        assert Quoted(argv[0]) + "" == Quoted(argv[0]);
        LexEnd(QuotedWord(argv[0]));
        assert QuotedWords(argv) == [QuotedWord(argv[0])];
      } else {
        var rest := Arguments(argv[1..]);
        assert Arguments(argv) == Quoted(argv[0]) + (" " + rest);
        LexQuoted(argv[0], " " + rest, None);
        LexBlank(QuotedWord(argv[0]), rest);
      }
    }
  }

  lemma LexEnd(w: Word)
    ensures Lex("", Some(w), false) == Some([w])
  {
  }

  function QuotedWords(argv: seq<string>): seq<Word> {
    if argv == [] then [] else [QuotedWord(argv[0])] + QuotedWords(argv[1..])
  }

  lemma {:induction false} QuotedWordsRead(argv: seq<string>)
    ensures Texts(QuotedWords(argv)) == argv
    ensures argv != [] ==> !IsAssignment(QuotedWord(argv[0]))
    decreases |argv|
  {
    if argv == [] {
    } else {
      QuotedWordsRead(argv[1..]);
      assert Unquoted(QuotedWord(argv[0])) == argv[0];
    }
  }

  lemma {:induction false} NameLengthOf(key: string, rest: Word)
    requires forall c :: c in key ==> NameChar(c)
    requires rest != [] && (rest[0].quoted || !NameChar(rest[0].c))
    ensures NameLength(PlainWord(key) + rest) == |key|
    decreases |key|
  {
    if key == "" {
      assert PlainWord(key) + rest == rest;
    } else {
      assert (PlainWord(key) + rest)[1..] == PlainWord(key[1..]) + rest;
      NameLengthOf(key[1..], rest);
    }
  }

  lemma AssignmentWordRead(e: (string, string))
    requires ValidName(e.0)
    ensures var w := AssignmentWord(e);
      IsAssignment(w) && Unquoted(w[..NameLength(w)]) == e.0 && Unquoted(w[NameLength(w) + 1..]) == e.1
  {
    var w := AssignmentWord(e);
    assert w == PlainWord(e.0) + ([WordChar('=', false)] + QuotedWord(e.1));
    NameLengthOf(e.0, [WordChar('=', false)] + QuotedWord(e.1));
    assert w[..|e.0|] == PlainWord(e.0) && w[|e.0| + 1..] == QuotedWord(e.1);
  }

  /** With names for keys, the script reads back as the assignments and the argument vector,
      and is refused exactly when something holds a NUL. */
  lemma {:induction false} ScriptReads(env: seq<(string, string)>, argv: seq<string>)
    requires forall e :: e in env ==> ValidName(e.0)
    ensures Read(Script(env, argv)) == if Recoverable(env, argv) then Some(Command(env, argv)) else None
    decreases |env|
  {
    hide Lex, ToCommand, Script, Read;
    if env == [] {
      ArgumentsRead(argv);
    } else {
      ScriptReads(env[1..], argv);
      AssignmentFirst(env[0], env[1..], argv);
      assert [env[0]] + env[1..] == env;
      assert forall e :: e in env <==> e == env[0] || e in env[1..];
    }
  }

  lemma ArgumentsRead(argv: seq<string>)
    ensures Read(Script([], argv)) ==
            if exists a :: a in argv && NUL in a then None else Some(Command([], argv))
  {
    assert Script([], argv) == Arguments(argv);
    LexArguments(argv);
    QuotedWordsRead(argv);
  }

  /** Reading an assignment in front of a script. */
  lemma AssignmentFirst(e: (string, string), env: seq<(string, string)>, argv: seq<string>)
    requires ValidName(e.0)
    ensures var rest := Read(Script(env, argv));
      Read(Script([e] + env, argv)) ==
      if NUL in e.1 || rest.None? then None else Some(Command([e] + rest.value.env, rest.value.argv))
  {
    var rest := Script(env, argv);
    ScriptCons(e, env, argv);
    LexAssignment(e, rest);
    AssignmentWordRead(e);
    hide Lex, Script, Quoted, AssignmentWord, IsAssignment, NameLength;
    var words := Lex(rest, None, false);
    if words.Some? {
      assert ([AssignmentWord(e)] + words.value)[1..] == words.value;
    }
  }

  lemma ScriptCons(e: (string, string), env: seq<(string, string)>, argv: seq<string>)
    ensures Script([e] + env, argv) == e.0 + "=" + Quoted(e.1) + " " + Script(env, argv)
  {
    assert ([e] + env)[1..] == env;
  }

  /** Whatever is read, the keys are names. */
  lemma {:induction false} KeysAreNames(words: seq<Word>)
    ensures forall e :: e in ToCommand(words).env ==> ValidName(e.0)
    decreases |words|
  {
    if words == [] || !IsAssignment(words[0]) {
    } else {
      KeysAreNames(words[1..]);
      var w := words[0];
      var n := NameLength(w);
      assert Unquoted(w[..n])[0] == w[0].c;
    }
  }

  /** A script reads back as what it was built from, exactly for names as keys and NUL-free
      values and arguments. */
  lemma ScriptRoundTrip(env: seq<(string, string)>, argv: seq<string>)
    ensures Read(Script(env, argv)) == Some(Command(env, argv)) <==> Recoverable(env, argv)
  {
    if forall e :: e in env ==> ValidName(e.0) {
      ScriptReads(env, argv);
    } else {
      var words := Lex(Script(env, argv), None, false);
      if words.Some? {
        KeysAreNames(words.value);
      }
    }
  }
}
