/** Quoting an argument vector into one Windows command line, against the reader that every
    started program applies to it. */
module WindowsArgv {

  // ----- the reader: the CommandLineToArgvW rules

  /** Readers differ on a quote directly after a closing quote; the writer must not depend on it. */
  datatype DoubledQuote = Reopens | LiteralStaysQuoted | LiteralEndsQuoted

  function Slashes(n: nat): (s: string)
    ensures |s| == n && forall c :: c in s ==> c == '\\'
  {
    seq(n, _ => '\\')
  }

  predicate Blank(c: char) {
    c == ' ' || c == '\t'
  }

  /** Reads one argument to its end: 2n backslashes before a quote are n backslashes and the
      quote delimits, 2n+1 are n backslashes and a literal quote, others are themselves. */
  function ReadArg(s: string, quoted: bool, slashes: nat, rule: DoubledQuote): (r: (string, string))
    ensures |r.1| <= |s|
    decreases |s|
  {
    if s == "" then (Slashes(slashes), "")
    else if s[0] == '\\' then ReadArg(s[1..], quoted, slashes + 1, rule)
    else if s[0] == '"' then
      if slashes % 2 == 1 then
        var (arg, rest) := ReadArg(s[1..], quoted, 0, rule);
        (Slashes(slashes / 2) + "\"" + arg, rest)
      else if quoted && s[1..] != "" && s[1] == '"' && !rule.Reopens? then
        var (arg, rest) := ReadArg(s[2..], rule.LiteralStaysQuoted?, 0, rule);
        (Slashes(slashes / 2) + "\"" + arg, rest)
      else
        var (arg, rest) := ReadArg(s[1..], !quoted, 0, rule);
        (Slashes(slashes / 2) + arg, rest)
    else if Blank(s[0]) && !quoted then (Slashes(slashes), s)
    else
      var (arg, rest) := ReadArg(s[1..], quoted, 0, rule);
      (Slashes(slashes) + [s[0]] + arg, rest)
  }

  /** Reads all arguments, separated by blanks. */
  function ReadArgs(s: string, rule: DoubledQuote): seq<string>
    decreases |s|
  {
    if s == "" then []
    else if Blank(s[0]) then ReadArgs(s[1..], rule)
    else
      var (arg, rest) := ReadArg(s, false, 0, rule);
      if |rest| < |s| then [arg] + ReadArgs(rest, rule) else [arg]
  }

  /** The program name is read differently: a leading quote ends at the next one, no escapes. */
  function ReadProgram(s: string): (string, string)
    requires s != "" && s[0] == '"'
  {
    UpToQuote(s[1..])
  }

  function UpToQuote(s: string): (string, string) {
    if s == "" then ("", "")
    else if s[0] == '"' then ("", s[1..])
    else var (name, rest) := UpToQuote(s[1..]); ([s[0]] + name, rest)
  }

  // ----- the writer

  /** The quoted text of `arg` after its opening quote, with `slashes` backslashes pending,
      followed by `rest`. */
  function Body(arg: string, slashes: nat, rest: string): string {
    if arg == "" then Slashes(slashes * 2) + ("\"" + rest)
    else if arg[0] == '\\' then Body(arg[1..], slashes + 1, rest)
    else Slashes(if arg[0] == '"' then slashes * 2 + 1 else slashes) + ([arg[0]] + Body(arg[1..], 0, rest))
  }

  function Quoted(arg: string): string {
    "\"" + Body(arg, 0, "")
  }

  lemma {:induction false} BodyAppend(arg: string, slashes: nat, rest: string)
    ensures Body(arg, slashes, "") + rest == Body(arg, slashes, rest)
    decreases |arg|
  {
    if arg == "" {
    } else if arg[0] == '\\' {
      BodyAppend(arg[1..], slashes + 1, rest);
    } else {
      BodyAppend(arg[1..], 0, rest);
    }
  }

  method QuoteArg(arg: string) returns (out: string)
    ensures out == Quoted(arg)
  {
    out := "\"";
    var backslashes := 0;
    assert arg[0..] == arg;
    for i := 0 to |arg|
      invariant backslashes >= 0
      invariant out + Body(arg[i..], backslashes, "") == Quoted(arg)
    {
      var c := arg[i];
      assert arg[i..][1..] == arg[i + 1..];
      if c == '\\' {
        backslashes := backslashes + 1;
        continue;
      }
      if c == '"' {
        out := out + Slashes(backslashes * 2 + 1);
      } else {
        out := out + Slashes(backslashes);
      }
      out := out + [c];
      backslashes := 0;
    }
    out := out + Slashes(backslashes * 2);
    out := out + "\"";
  }

  function CommandLine(argv: seq<string>): string {
    if argv == [] then ""
    else if |argv| == 1 then Quoted(argv[0])
    else Quoted(argv[0]) + " " + CommandLine(argv[1..])
  }

  /** An argument without quotes and backslashes is written between quotes as it is. */
  lemma {:induction false} PlainQuoted(arg: string)
    requires '"' !in arg && '\\' !in arg
    ensures Quoted(arg) == "\"" + arg + "\""
    decreases |arg|
  {
    assert Slashes(0) == "";
    if arg == "" {
      assert Body("", 0, "") == "\"";
    } else {
      PlainQuoted(arg[1..]);
      assert Body(arg[1..], 0, "") == Quoted(arg[1..])[1..] == arg[1..] + "\"";
      assert "" + ([arg[0]] + Body(arg[1..], 0, "")) == arg + "\"";
    }
  }

  method BuildCommandLine(argv: seq<string>) returns (cmd: string)
    ensures cmd == CommandLine(argv)
    ensures forall rule :: ReadArgs(cmd, rule) == argv
  {
    cmd := "";
    for i := 0 to |argv|
      invariant cmd == CommandLine(argv[..i])
    {
      assert argv[..i + 1] == argv[..i] + [argv[i]];
      CommandLineSnoc(argv[..i], argv[i]);
      if i != 0 {
        cmd := cmd + " ";
      }
      var q := QuoteArg(argv[i]);
      cmd := cmd + q;
    }
    assert argv[..|argv|] == argv;
    forall rule { CommandLineRoundTrip(argv, rule); }
  }

  lemma {:induction false} CommandLineSnoc(argv: seq<string>, arg: string)
    ensures CommandLine(argv + [arg]) == CommandLine(argv) + (if argv == [] then "" else " ") + Quoted(arg)
    decreases |argv|
  {
    if argv == [] {
    } else {
      assert (argv + [arg])[1..] == argv[1..] + [arg];
      CommandLineSnoc(argv[1..], arg);
    }
  }

  // ----- what was written is what is read

  lemma {:induction false} ReadSlashes(n: nat, s: string, quoted: bool, slashes: nat, rule: DoubledQuote)
    ensures ReadArg(Slashes(n) + s, quoted, slashes, rule) == ReadArg(s, quoted, slashes + n, rule)
    decreases n
  {
    if n == 0 {
      assert Slashes(0) + s == s;
    } else {
      assert (Slashes(n) + s)[1..] == Slashes(n - 1) + s;
      ReadSlashes(n - 1, s, quoted, slashes + 1, rule);
    }
  }

  lemma ReadPlain(c: char, slashes: nat, s: string, rule: DoubledQuote)
    requires c != '\\'
    ensures var run := if c == '"' then slashes * 2 + 1 else slashes;
      var r := ReadArg(s, true, 0, rule);
      ReadArg(Slashes(run) + ([c] + s), true, 0, rule) == (Slashes(slashes) + [c] + r.0, r.1)
  {
    var run := if c == '"' then slashes * 2 + 1 else slashes;
    ReadSlashes(run, [c] + s, true, 0, rule);
    assert ([c] + s)[1..] == s;
  }

  lemma ReadClosingQuote(slashes: nat, rest: string, rule: DoubledQuote)
    requires rest == "" || Blank(rest[0])
    ensures ReadArg(Slashes(slashes * 2) + ("\"" + rest), true, 0, rule) == (Slashes(slashes), rest)
  {
    ReadSlashes(slashes * 2, "\"" + rest, true, 0, rule);
    assert ("\"" + rest)[1..] == rest;
    assert Slashes(0) == "";
    assert ReadArg(rest, false, 0, rule) == ("", rest);
    assert Slashes(slashes) + "" == Slashes(slashes);
  }

  /** Inside quotes the reader undoes the writer, pending backslashes included. */
  lemma {:induction false} BodyRoundTrip(arg: string, slashes: nat, rest: string, rule: DoubledQuote)
    requires rest == "" || Blank(rest[0])
    ensures ReadArg(Body(arg, slashes, rest), true, 0, rule) == (Slashes(slashes) + arg, rest)
    decreases |arg|
  {
    if arg == "" {
      ReadClosingQuote(slashes, rest, rule);
      assert Slashes(slashes) + arg == Slashes(slashes);
    } else if arg[0] == '\\' {
      BodyRoundTrip(arg[1..], slashes + 1, rest, rule);
      assert Slashes(slashes + 1) + arg[1..] == Slashes(slashes) + arg;
    } else {
      BodyRoundTrip(arg[1..], 0, rest, rule);
      ReadPlain(arg[0], slashes, Body(arg[1..], 0, rest), rule);
      assert Slashes(slashes) + [arg[0]] + (Slashes(0) + arg[1..]) == Slashes(slashes) + arg;
    }
  }

  lemma ArgRoundTrip(arg: string, rest: string, rule: DoubledQuote)
    requires rest == "" || Blank(rest[0])
    ensures ReadArg(Quoted(arg) + rest, false, 0, rule) == (arg, rest)
  {
    BodyRoundTrip(arg, 0, rest, rule);
    BodyAppend(arg, 0, rest);
    assert (Quoted(arg) + rest)[1..] == Body(arg, 0, rest);
    assert Slashes(0) + (Slashes(0) + arg) == arg;
  }

  /** For every argument vector, whichever doubled-quote rule the reader follows. */
  lemma {:induction false} CommandLineRoundTrip(argv: seq<string>, rule: DoubledQuote)
    ensures ReadArgs(CommandLine(argv), rule) == argv
    decreases |argv|
  {
    if argv == [] {
    } else {
      var rest := if |argv| == 1 then "" else " " + CommandLine(argv[1..]);
      assert CommandLine(argv) == Quoted(argv[0]) + rest;
      ArgRoundTrip(argv[0], rest, rule);
      if |argv| != 1 {
        assert rest[1..] == CommandLine(argv[1..]);
        assert ReadArgs(rest, rule) == ReadArgs(CommandLine(argv[1..]), rule);
      }
      CommandLineRoundTrip(argv[1..], rule);
      assert [argv[0]] + argv[1..] == argv;
    }
  }

  // ----- the program name

  lemma {:induction false} UpToQuoteAppend(a: string, b: string)
    requires '"' !in a
    ensures UpToQuote(a + b) == (a + UpToQuote(b).0, UpToQuote(b).1)
    decreases |a|
  {
    var name := UpToQuote(b).0;
    if a == "" {
      assert a + b == b && a + name == name;
    } else {
      assert (a + b)[1..] == a[1..] + b;
      assert [a[0]] + (a[1..] + name) == a + name;
      UpToQuoteAppend(a[1..], b);
    }
  }

  /** No quote inside and no backslash at the end (nor `slashes` of them before the end). */
  predicate PlainProgram(arg: string, slashes: nat) {
    '"' !in arg && (if arg == "" then slashes == 0 else arg[|arg| - 1] != '\\')
  }

  /** The quoted text of `arg`, read as a program name, gives `arg` back. */
  ghost predicate ReadsBack(arg: string, slashes: nat, rest: string) {
    UpToQuote(Body(arg, slashes, rest)) == (Slashes(slashes) + arg, rest)
  }

  lemma {:induction false} ProgramBody(arg: string, slashes: nat, rest: string)
    ensures ReadsBack(arg, slashes, rest) <==> PlainProgram(arg, slashes)
    decreases |arg|
  {
    hide ReadsBack;
    if arg == "" {
      AtEnd(slashes, rest);
    } else if arg[0] == '\\' {
      ProgramBody(arg[1..], slashes + 1, rest);
      AtBackslash(arg, slashes, rest);
    } else if arg[0] == '"' {
      AtQuote(arg, slashes, rest);
    } else {
      ProgramBody(arg[1..], 0, rest);
      AtPlain(arg, slashes, rest);
    }
  }

  lemma AtEnd(slashes: nat, rest: string)
    ensures ReadsBack("", slashes, rest) <==> slashes == 0
  {
    ProgramEnd(slashes, rest);
    assert |Slashes(slashes) + ""| == slashes;
  }

  lemma AtBackslash(arg: string, slashes: nat, rest: string)
    requires arg != "" && arg[0] == '\\'
    ensures ReadsBack(arg, slashes, rest) <==> ReadsBack(arg[1..], slashes + 1, rest)
  {
    assert Slashes(slashes + 1) + arg[1..] == Slashes(slashes) + arg;
  }

  lemma AtQuote(arg: string, slashes: nat, rest: string)
    requires arg != "" && arg[0] == '"'
    ensures !ReadsBack(arg, slashes, rest)
  {
    ProgramStops(slashes * 2 + 1, Body(arg[1..], 0, rest));
    assert (Slashes(slashes) + arg)[slashes] == '"';
  }

  lemma AtPlain(arg: string, slashes: nat, rest: string)
    requires arg != "" && arg[0] != '"' && arg[0] != '\\'
    ensures ReadsBack(arg, slashes, rest) <==> ReadsBack(arg[1..], 0, rest)
  {
    assert Slashes(0) + arg[1..] == arg[1..];
    ProgramChar(arg, slashes, Body(arg[1..], 0, rest));
  }

  lemma ProgramEnd(slashes: nat, rest: string)
    ensures UpToQuote(Slashes(slashes * 2) + ("\"" + rest)) == (Slashes(slashes * 2), rest)
  {
    UpToQuoteAppend(Slashes(slashes * 2), "\"" + rest);
    assert ("\"" + rest)[1..] == rest;
    assert Slashes(slashes * 2) + "" == Slashes(slashes * 2);
  }

  lemma ProgramStops(run: nat, body: string)
    ensures var name := UpToQuote(Slashes(run) + (['"'] + body)).0;
      name == Slashes(run) && '"' !in name
  {
    UpToQuoteAppend(Slashes(run), ['"'] + body);
    assert Slashes(run) + "" == Slashes(run);
  }

  lemma ProgramChar(arg: string, slashes: nat, body: string)
    requires arg != "" && arg[0] != '"'
    ensures var (name, after) := UpToQuote(body);
      && UpToQuote(Slashes(slashes) + ([arg[0]] + body)).1 == after
      && (UpToQuote(Slashes(slashes) + ([arg[0]] + body)).0 == Slashes(slashes) + arg <==> name == arg[1..])
  {
    UpToQuoteAppend(Slashes(slashes), [arg[0]] + body);
    assert ([arg[0]] + body)[1..] == body;
    SamePrefix(Slashes(slashes), arg, UpToQuote(body).0);
  }

  lemma SamePrefix(prefix: string, arg: string, name: string)
    requires arg != ""
    ensures prefix + ([arg[0]] + name) == prefix + arg <==> name == arg[1..]
  {
    var left, right := prefix + ([arg[0]] + name), prefix + arg;
    assert left[|prefix| + 1..] == name && right[|prefix| + 1..] == arg[1..];
    assert name == arg[1..] ==> [arg[0]] + name == arg;
  }

  /** Read as a program name, a quoted argument comes back exactly when it has no quote and
      does not end in a backslash. */
  lemma ProgramRoundTrip(arg: string, rest: string)
    ensures ReadProgram(Quoted(arg) + rest) == (arg, rest) <==> PlainProgram(arg, 0)
  {
    BodyAppend(arg, 0, rest);
    assert (Quoted(arg) + rest)[1..] == Body(arg, 0, rest);
    ProgramBody(arg, 0, rest);
    assert Slashes(0) + arg == arg;
  }
}
