/** Rendering a connection URL from its components, against a reader of generic URIs
    (sections 2.1, 2.3 and 3 of RFC 3986). */
module ConnectionStrings {
  import opened Wrappers
  import Text

  type Port = p: int | 0 <= p < 0x1_0000

  datatype ConnectionString = ConnectionString(
    scheme: string,
    user: Option<string>,
    password: Option<string>,
    host: string,
    port: Option<Port>,
    database: Option<string>,
    params: seq<(string, string)>)

  /** Text made of single bytes. */
  predicate IsBytes(s: string) {
    forall c :: c in s ==> c as int < 256
  }

  // ----- percent-encoding

  const HEX := "0123456789ABCDEF"

  predicate Unreserved(c: char) {
    || 'A' <= c <= 'Z' || 'a' <= c <= 'z' || '0' <= c <= '9'
    || c == '-' || c == '.' || c == '_' || c == '~'
  }

  function EncodedChar(c: char): string {
    if Unreserved(c) then [c] else ['%', HEX[c as int / 16 % 16], HEX[c as int % 16]]
  }

  function Encoded(s: string): string {
    if s == "" then "" else EncodedChar(s[0]) + Encoded(s[1..])
  }

  method EncodeComponent(value: string) returns (out: string)
    requires IsBytes(value)
    ensures out == Encoded(value)
    ensures Decoded(out) == value && Delimited(out)
  {
    DecodeEncoded(value);
    hide Encoded, Decoded, Delimited;
    out := "";
    assert value[0..] == value;
    for i := 0 to |value|
      invariant out + Encoded(value[i..]) == Encoded(value)
    {
      var c := value[i];
      OneMoreChar(value, i, out);
      if Unreserved(c) {
        out := out + [c];
      } else {
        out := out + ['%', HEX[c as int / 16 % 16], HEX[c as int % 16]];
      }
    }
    AllEncoded(value, out);
  }

  lemma OneMoreChar(value: string, i: nat, out: string)
    requires i < |value|
    ensures out + Encoded(value[i..]) == (out + EncodedChar(value[i])) + Encoded(value[i + 1..])
  {
    assert value[i..][1..] == value[i + 1..];
    hide EncodedChar;
  }

  lemma AllEncoded(value: string, out: string)
    ensures out + Encoded(value[|value|..]) == out
  {
  }

  function HexValue(c: char): int {
    if '0' <= c <= '9' then c as int - 48
    else if 'A' <= c <= 'F' then c as int - 55
    else if 'a' <= c <= 'f' then c as int - 87
    else -1
  }

  /** Percent-decoding; what is no escape stands for itself. */
  function Decoded(s: string): string {
    if s == "" then ""
    else if s[0] == '%' && 3 <= |s| && 0 <= HexValue(s[1]) && 0 <= HexValue(s[2]) then
      [(HexValue(s[1]) * 16 + HexValue(s[2])) as char] + Decoded(s[3..])
    else [s[0]] + Decoded(s[1..])
  }

  lemma HexDigits(n: int)
    requires 0 <= n < 16
    ensures HexValue(HEX[n]) == n && HEX[n] !in ":/?#[]@&="
  {
  }

  /** Contains none of the characters that separate URL components. */
  ghost predicate Delimited(s: string) {
    forall c :: c in s ==> c !in ":/?#[]@&="
  }

  lemma EscapeDecoded(c: char, tail: string)
    requires c as int < 256 && !Unreserved(c)
    ensures Decoded(EncodedChar(c) + tail) == [c] + Decoded(tail)
    ensures forall x :: x in EncodedChar(c) ==> x !in ":/?#[]@&="
  {
    var n := c as int;
    HexDigits(n / 16);
    HexDigits(n % 16);
    assert n / 16 % 16 == n / 16;
    var e := EncodedChar(c) + tail;
    assert e[0] == '%' && e[1] == HEX[n / 16] && e[2] == HEX[n % 16] && e[3..] == tail;
    assert (HexValue(e[1]) * 16 + HexValue(e[2])) as char == c;
  }

  lemma PlainDecoded(c: char, tail: string)
    requires Unreserved(c)
    ensures Decoded(EncodedChar(c) + tail) == [c] + Decoded(tail)
    ensures forall x :: x in EncodedChar(c) ==> x !in ":/?#[]@&="
  {
    assert ([c] + tail)[1..] == tail && c != '%';
  }

  /** Decoding undoes encoding for every byte string, and an encoded component holds no
      separator. */
  lemma {:induction false} DecodeEncoded(s: string)
    requires IsBytes(s)
    ensures Decoded(Encoded(s)) == s && Delimited(Encoded(s))
    decreases |s|
  {
    if s == "" {
    } else {
      var c, tail := s[0], Encoded(s[1..]);
      assert c in s && forall x :: x in s[1..] ==> x in s;
      DecodeEncoded(s[1..]);
      if Unreserved(c) {
        PlainDecoded(c, tail);
      } else {
        EscapeDecoded(c, tail);
      }
      hide EncodedChar, Decoded;
      assert forall x :: x in EncodedChar(c) + tail <==> x in EncodedChar(c) || x in tail;
      assert [c] + s[1..] == s;
    }
  }

  lemma HexLetter(n: nat)
    requires n < 16
    ensures HEX[n] as int == if n < 10 then '0' as int + n else 'A' as int + (n - 10)
  {
  }

  /** Letters, digits and "-._~" stand for themselves, any other byte is '%' and two upper-case
      hexadecimal digits, the high one first. */
  lemma EncodedMeaning(c: char, rest: string)
    ensures Encoded("") == ""
    ensures 'A' <= c <= 'Z' || 'a' <= c <= 'z' || '0' <= c <= '9' || c == '-' || c == '.' || c == '_' || c == '~' ==>
      Encoded([c] + rest) == [c] + Encoded(rest)
  {
    assert ([c] + rest)[1..] == rest;
  }

  lemma EscapedMeaning(c: char, rest: string)
    requires c as int < 256 && !('A' <= c <= 'Z' || 'a' <= c <= 'z' || '0' <= c <= '9')
    requires c != '-' && c != '.' && c != '_' && c != '~'
    ensures Encoded([c] + rest) == ['%', HEX[c as int / 16], HEX[c as int % 16]] + Encoded(rest)
  {
    hide HEX;
    assert ([c] + rest)[1..] == rest && c as int / 16 % 16 == c as int / 16;
  }

  // ----- decimal ports

  function Decimal(n: nat): string {
    if n < 10 then ['0' + n as char] else Decimal(n / 10) + ['0' + (n % 10) as char]
  }

  function DecimalValue(s: string): int {
    if s == "" then 0 else DecimalValue(s[..|s| - 1]) * 10 + (s[|s| - 1] as int - 48)
  }

  lemma {:induction false} DecimalRoundTrip(n: nat)
    ensures DecimalValue(Decimal(n)) == n && Decimal(n) != ""
    ensures forall c :: c in Decimal(n) ==> '0' <= c <= '9'
    decreases n
  {
    var s := Decimal(n);
    if n < 10 {
      assert s[..0] == "";
    } else {
      DecimalRoundTrip(n / 10);
      assert s[..|s| - 1] == Decimal(n / 10);
    }
  }

  // ----- rendering

  predicate HasColon(s: string) {
    exists i :: 0 <= i < |s| && s[i] == ':'
  }

  /** An IPv6 literal is bracketed; one already bracketed passes through. */
  function RenderHost(host: string): string {
    if host != "" && HasColon(host) && host[0] != '[' then "[" + host + "]" else host
  }

  function RenderUserInfo(cs: ConnectionString): string {
    if cs.user.None? && cs.password.None? then ""
    else (if cs.user.Some? then Encoded(cs.user.value) else "")
         + (if cs.password.Some? then ":" + Encoded(cs.password.value) else "") + "@"
  }

  function RenderHostPort(cs: ConnectionString): string {
    RenderHost(cs.host) + if cs.port.Some? then ":" + Decimal(cs.port.value) else ""
  }

  function RenderPair(p: (string, string)): string {
    Encoded(p.0) + "=" + Encoded(p.1)
  }

  function RenderPairs(params: seq<(string, string)>): seq<string> {
    seq(|params|, i requires 0 <= i < |params| => RenderPair(params[i]))
  }

  function RenderPath(cs: ConnectionString): string {
    if cs.database.Some? then "/" + Encoded(cs.database.value) else ""
  }

  function RenderQuery(cs: ConnectionString): string {
    if cs.params == [] then "" else "?" + Text.Join(RenderPairs(cs.params), '&')
  }

  function Rendered(cs: ConnectionString): string {
    cs.scheme + ("://" + ((RenderUserInfo(cs) + RenderHostPort(cs)) + (RenderPath(cs) + RenderQuery(cs))))
  }

  lemma DecimalMeaning(n: nat)
    ensures n < 10 ==> Decimal(n) == ['0' + n as char]
    ensures 10 <= n ==> Decimal(n) == Decimal(n / 10) + ['0' + (n % 10) as char]
  {
  }

  lemma HostMeaning(host: string)
    ensures ':' in host && host[0] != '[' ==> RenderHost(host) == "[" + host + "]"
    ensures ':' !in host || host[0] == '[' ==> RenderHost(host) == host
  {
  }

  /** The parts of a URL, in order. */
  lemma UrlMeaning(cs: ConnectionString)
    ensures Rendered(cs) ==
      cs.scheme + ("://" + ((RenderUserInfo(cs) + RenderHostPort(cs)) + (RenderPath(cs) + RenderQuery(cs))))
    ensures RenderHostPort(cs) == RenderHost(cs.host) + if cs.port.Some? then ":" + Decimal(cs.port.value) else ""
    ensures RenderPath(cs) == if cs.database.Some? then "/" + Encoded(cs.database.value) else ""
  {
  }

  lemma UserInfoMeaning(cs: ConnectionString)
    ensures cs.user.None? && cs.password.None? ==> RenderUserInfo(cs) == ""
    ensures cs.user.Some? && cs.password.None? ==> RenderUserInfo(cs) == Encoded(cs.user.value) + "@"
    ensures cs.user.None? && cs.password.Some? ==> RenderUserInfo(cs) == ":" + Encoded(cs.password.value) + "@"
    ensures cs.user.Some? && cs.password.Some? ==>
      RenderUserInfo(cs) == Encoded(cs.user.value) + (":" + Encoded(cs.password.value)) + "@"
  {
    hide Encoded;
  }

  /** One more parameter: after '?' if it is the first, after '&' if not. */
  lemma QueryMeaning(cs: ConnectionString, k: string, v: string)
    ensures cs.params == [] ==> RenderQuery(cs) == ""
    ensures RenderQuery(cs.(params := cs.params + [(k, v)])) ==
      RenderQuery(cs) + ((if cs.params == [] then "?" else "&") + (Encoded(k) + "=" + Encoded(v)))
  {
    hide Encoded;
    var (had, p) := (RenderPairs(cs.params), RenderPair((k, v)));
    assert RenderPairs(cs.params + [(k, v)]) == had + [p];
    Text.JoinSnoc(had, p, '&');
    hide RenderPairs, RenderPair, Text.Join;
    if cs.params != [] {
      assert "?" + (Text.Join(had, '&') + (['&'] + p)) == ("?" + Text.Join(had, '&')) + ("&" + p);
    } else {
      assert "" + ("?" + p) == "?" + p;
    }
  }

  // ----- reading

  /** `s` up to the first character in `stops`, and the rest. */
  function SplitAt(s: string, stops: string): (r: (string, string))
    ensures r.0 + r.1 == s
  {
    if s == "" || s[0] in stops then ("", s)
    else var (head, tail) := SplitAt(s[1..], stops); ([s[0]] + head, tail)
  }

  lemma {:induction false} SplitAtOf(a: string, b: string, stops: string)
    requires (forall c :: c in a ==> c !in stops) && (b == "" || b[0] in stops)
    ensures SplitAt(a + b, stops) == (a, b)
    decreases |a|
  {
    if a == "" {
      assert a + b == b;
    } else {
      assert a[0] in a && (a + b)[1..] == a[1..] + b;
      assert [a[0]] + a[1..] == a && forall c :: c in a[1..] ==> c in a;
      SplitAtOf(a[1..], b, stops);
    }
  }

  function ReadUserInfo(info: string): (Option<string>, Option<string>) {
    var (u, p) := SplitAt(info, ":");
    (Some(Decoded(u)), if p == "" then None else Some(Decoded(p[1..])))
  }

  /** Host, brackets included, and port. */
  function ReadHostPort(s: string): (string, Option<int>) {
    var (h, rest) := if s != "" && s[0] == '[' then
      var (inner, tail) := SplitAt(s, "]");
      if tail == "" then (inner, tail) else (inner + "]", tail[1..])
    else SplitAt(s, ":");
    (h, if rest == "" then None else Some(DecimalValue(rest[1..])))
  }

  function ReadPair(s: string): (string, string) {
    var (k, v) := SplitAt(s, "=");
    (Decoded(k), if v == "" then "" else Decoded(v[1..]))
  }

  function ReadPairs(pieces: seq<string>): seq<(string, string)> {
    seq(|pieces|, i requires 0 <= i < |pieces| => ReadPair(pieces[i]))
  }

  datatype Read = Read(
    scheme: string,
    user: Option<string>,
    password: Option<string>,
    host: string,
    port: Option<int>,
    database: Option<string>,
    params: seq<(string, string)>)

  /** scheme "://" authority path [ "?" query ]; None when the text has another shape. */
  function Parse(url: string): Option<Read> {
    var (scheme, r1) := SplitAt(url, ":");
    if |r1| < 3 || r1[..3] != "://" then None
    else
      var (authority, r2) := SplitAt(r1[3..], "/?#");
      var (path, r3) := SplitAt(r2, "?#");
      var (before, after) := SplitAt(authority, "@");
      var (user, password) := if after == "" then (None, None) else ReadUserInfo(before);
      var (host, port) := ReadHostPort(if after == "" then authority else after[1..]);
      var database := if path == "" then None else Some(Decoded(path[1..]));
      if r3 == "" then Some(Read(scheme, user, password, host, port, database, []))
      else if r3[0] == '#' then None
      else Some(Read(scheme, user, password, host, port, database, ReadPairs(Text.Split(r3[1..], '&'))))
  }

  // ----- what was rendered is what is read

  /** A host without separators, in brackets or not; the components are byte strings. */
  ghost predicate PlainHost(host: string) {
    var inner := if 2 <= |host| && host[0] == '[' && host[|host| - 1] == ']' then host[1..|host| - 1] else host;
    forall c :: c in inner ==> c !in "/?#[]@"
  }

  ghost predicate Plain(cs: ConnectionString) {
    (forall c :: c in cs.scheme ==> c !in ":") && PlainHost(cs.host) && BytesOnly(cs)
  }

  predicate BytesOnly(cs: ConnectionString) {
    && (cs.user.Some? ==> IsBytes(cs.user.value)) && (cs.password.Some? ==> IsBytes(cs.password.value))
    && (cs.database.Some? ==> IsBytes(cs.database.value))
    && (forall i :: 0 <= i < |cs.params| ==> IsBytes(cs.params[i].0) && IsBytes(cs.params[i].1))
  }

  /** What can be told apart in a URL: an absent user beside a password is an empty one, and
      an IPv6 host carries its brackets. */
  function Normalized(cs: ConnectionString): ConnectionString {
    cs.(user := if cs.user.None? && cs.password.Some? then Some("") else cs.user, host := RenderHost(cs.host))
  }

  function AsRead(cs: ConnectionString): Read {
    var port := if cs.port.Some? then Some(cs.port.value) else None;
    Read(cs.scheme, cs.user, cs.password, cs.host, port, cs.database, cs.params)
  }

  /** Contains no character of `stops`. */
  ghost predicate Free(s: string, stops: string) {
    forall c :: c in s ==> c !in stops
  }

  const AUTHORITY_STOPS := "/?#[]@"

  lemma DelimitedIsFree(s: string)
    requires Delimited(s)
    ensures Free(s, ":") && Free(s, AUTHORITY_STOPS) && Free(s, "@") && Free(s, "?#")
    ensures Free(s, "&") && Free(s, "=") && Free(s, "]")
  {
  }

  lemma FreeAppend(a: string, b: string, stops: string)
    ensures Free(a + b, stops) <==> Free(a, stops) && Free(b, stops)
  {
    assert forall c :: c in a + b <==> c in a || c in b;
  }

  /** The user information without its '@'. */
  function Info(cs: ConnectionString): string {
    (if cs.user.Some? then Encoded(cs.user.value) else "")
    + (if cs.password.Some? then ":" + Encoded(cs.password.value) else "")
  }

  /** Two encoded parts around a ':' are told apart, and neither ends the authority. */
  lemma InfoParts(u: string, e: string)
    requires Delimited(u) && Delimited(e)
    ensures SplitAt(u + (":" + e), ":") == (u, ":" + e) && (":" + e)[1..] == e && Free(u + (":" + e), AUTHORITY_STOPS)
    ensures SplitAt(u + "", ":") == (u, "") && Free(u + "", AUTHORITY_STOPS)
  {
    DelimitedIsFree(u);
    DelimitedIsFree(e);
    SplitAtOf(u, ":" + e, ":");
    SplitAtOf(u, "", ":");
    FreeAppend(":", e, AUTHORITY_STOPS);
    FreeAppend(u, ":" + e, AUTHORITY_STOPS);
    assert u + "" == u;
  }

  lemma UserInfoRead(cs: ConnectionString)
    requires Plain(cs) && (cs.user.Some? || cs.password.Some?)
    ensures ReadUserInfo(Info(cs)) == (Normalized(cs).user, cs.password)
    ensures RenderUserInfo(cs) == Info(cs) + "@" && Free(Info(cs), AUTHORITY_STOPS)
  {
    var u := if cs.user.Some? then Encoded(cs.user.value) else "";
    var e := if cs.password.Some? then Encoded(cs.password.value) else "";
    if cs.user.Some? {
      DecodeEncoded(cs.user.value);
    }
    if cs.password.Some? {
      DecodeEncoded(cs.password.value);
    }
    InfoParts(u, e);
    assert Decoded("") == "";
    hide Encoded, Decoded, SplitAt, Delimited, Free;
  }

  lemma PortRead(cs: ConnectionString)
    ensures var p := if cs.port.Some? then ":" + Decimal(cs.port.value) else "";
      && (p == "" || p[0] == ':') && Free(p, AUTHORITY_STOPS)
      && (if p == "" then None else Some(DecimalValue(p[1..]))) == AsRead(cs).port
  {
    if cs.port.Some? {
      var d := Decimal(cs.port.value);
      DecimalRoundTrip(cs.port.value);
      hide Decimal, DecimalValue;
      assert (":" + d)[1..] == d;
      DigitsAreFree(d);
      FreeAppend(":", d, AUTHORITY_STOPS);
    }
  }

  lemma DigitsAreFree(d: string)
    requires forall c :: c in d ==> '0' <= c <= '9'
    ensures Free(d, AUTHORITY_STOPS)
  {
  }

  lemma HostPortRead(cs: ConnectionString)
    requires PlainHost(cs.host)
    ensures ReadHostPort(RenderHostPort(cs)) == (RenderHost(cs.host), AsRead(cs).port)
    ensures Free(RenderHostPort(cs), "/?#@")
  {
    var p := if cs.port.Some? then ":" + Decimal(cs.port.value) else "";
    PortRead(cs);
    HostRead(cs.host, p);
    hide RenderHost;
    FreeAppend(RenderHost(cs.host), p, "/?#@");
  }

  lemma HostRead(host: string, p: string)
    requires PlainHost(host) && (p == "" || p[0] == ':')
    ensures ReadHostPort(RenderHost(host) + p) ==
            (RenderHost(host), if p == "" then None else Some(DecimalValue(p[1..])))
    ensures Free(RenderHost(host), "/?#@")
  {
    if host != "" && host[0] == '[' {
      BracketsClose(host);
      var inner := host[1..|host| - 1];
      assert host == "[" + inner + "]";
      BracketsRead(inner, p);
    } else if HasColon(host) {
      BracketsRead(host, p);
    } else {
      assert forall c :: c in host ==> c != ':' && c !in AUTHORITY_STOPS;
      SplitAtOf(host, p, ":");
      assert host == "" ==> host + p == p;
    }
  }

  /** An unclosed bracket is no plain host. */
  lemma BracketsClose(host: string)
    requires PlainHost(host) && host != "" && host[0] == '['
    ensures 2 <= |host| && host[|host| - 1] == ']'
  {
    var stops := "/?#[]@";
    assert stops[3] == '[' && host[0] in host;
    assert '[' in stops;
  }

  lemma BracketsRead(inner: string, p: string)
    requires Free(inner, AUTHORITY_STOPS) && (p == "" || p[0] == ':')
    ensures ReadHostPort("[" + inner + "]" + p) ==
            ("[" + inner + "]", if p == "" then None else Some(DecimalValue(p[1..])))
    ensures Free("[" + inner + "]", "/?#@")
  {
    var s := "[" + inner + "]" + p;
    assert s == ("[" + inner) + ("]" + p) && s[0] == '[';
    assert forall c :: c in "[" + inner <==> c == '[' || c in inner;
    SplitAtOf("[" + inner, "]" + p, "]");
    assert ("]" + p)[1..] == p;
    assert forall c :: c in "[" + inner + "]" <==> c == '[' || c == ']' || c in inner;
  }

  function Authority(cs: ConnectionString): string {
    RenderUserInfo(cs) + RenderHostPort(cs)
  }

  lemma AuthorityRead(cs: ConnectionString)
    requires Plain(cs)
    ensures var (before, after) := SplitAt(Authority(cs), "@");
      && (if after == "" then (None, None) else ReadUserInfo(before)) == (Normalized(cs).user, cs.password)
      && ReadHostPort(if after == "" then Authority(cs) else after[1..]) == (RenderHost(cs.host), AsRead(cs).port)
    ensures Free(Authority(cs), "/?#")
  {
    HostPortRead(cs);
    var hp := RenderHostPort(cs);
    if cs.user.Some? || cs.password.Some? {
      UserInfoRead(cs);
    }
    hide RenderHost, Encoded, ReadHostPort, ReadUserInfo, RenderHostPort, Info;
    if cs.user.Some? || cs.password.Some? {
      var info := Info(cs);
      WithInfo(info, hp);
      FreeAppend(info, "@", "/?#");
      FreeAppend(info + "@", hp, "/?#");
    } else {
      assert Authority(cs) == hp == hp + "";
      SplitAtOf(hp, "", "@");
    }
  }

  lemma WithInfo(info: string, hp: string)
    requires Free(info, AUTHORITY_STOPS)
    ensures SplitAt(info + "@" + hp, "@") == (info, "@" + hp) && ("@" + hp)[1..] == hp
  {
    assert info + "@" + hp == info + ("@" + hp);
    SplitAtOf(info, "@" + hp, "@");
  }

  lemma PathRead(cs: ConnectionString)
    requires Plain(cs)
    ensures var path := RenderPath(cs);
      && (path == "" || path[0] == '/') && Free(path, "?#")
      && (if path == "" then None else Some(Decoded(path[1..]))) == cs.database
  {
    if cs.database.Some? {
      var e := Encoded(cs.database.value);
      DecodeEncoded(cs.database.value);
      DelimitedIsFree(e);
      assert ("/" + e)[1..] == e;
      FreeAppend("/", e, "?#");
    }
  }

  lemma PairRead(p: (string, string))
    requires IsBytes(p.0) && IsBytes(p.1)
    ensures ReadPair(RenderPair(p)) == p && Free(RenderPair(p), "&")
  {
    DecodeEncoded(p.0);
    DecodeEncoded(p.1);
    PairSplits(Encoded(p.0), Encoded(p.1));
    hide Encoded, Decoded, SplitAt;
  }

  lemma PairSplits(k: string, v: string)
    requires Delimited(k) && Delimited(v)
    ensures SplitAt(k + "=" + v, "=") == (k, "=" + v) && ("=" + v)[1..] == v
    ensures Free(k + "=" + v, "&")
  {
    DelimitedIsFree(k);
    DelimitedIsFree(v);
    assert k + "=" + v == k + ("=" + v);
    SplitAtOf(k, "=" + v, "=");
    assert forall c :: c in k + "=" + v <==> c in k || c == '=' || c in v;
  }

  lemma QueryRead(cs: ConnectionString)
    requires Plain(cs)
    ensures var q := RenderQuery(cs);
      && (q == "" <==> cs.params == []) && (q == "" || q[0] == '?')
      && (q != "" ==> ReadPairs(Text.Split(q[1..], '&')) == cs.params)
  {
    if cs.params != [] {
      var pieces := RenderPairs(cs.params);
      forall i | 0 <= i < |cs.params| ensures ReadPair(pieces[i]) == cs.params[i] && '&' !in pieces[i] {
        PairRead(cs.params[i]);
      }
      Text.SplitJoin(pieces, '&');
      assert ("?" + Text.Join(pieces, '&'))[1..] == Text.Join(pieces, '&');
      assert ReadPairs(pieces) == cs.params;
    }
  }

  /** For a scheme without ':' and a host without separators, a rendered URL reads back as
      every component, up to normalization. */
  lemma RoundTrip(cs: ConnectionString)
    requires Plain(cs)
    ensures Parse(Rendered(cs)) == Some(AsRead(Normalized(cs)))
  {
    var authority, path, query := Authority(cs), RenderPath(cs), RenderQuery(cs);
    AuthorityRead(cs);
    PathRead(cs);
    QueryRead(cs);
    hide Authority, RenderPath, RenderQuery, ReadPairs, ReadHostPort, ReadUserInfo, RenderUserInfo, RenderHostPort;
    Sections(cs.scheme, authority, path, query);
    assert Rendered(cs) == cs.scheme + ("://" + (authority + (path + query))) by { RenderedSections(cs); }
  }

  lemma RenderedSections(cs: ConnectionString)
    ensures Rendered(cs) == cs.scheme + ("://" + (Authority(cs) + (RenderPath(cs) + RenderQuery(cs))))
  {
  }

  /** The generic URI splits into its sections again. */
  lemma Sections(scheme: string, authority: string, path: string, query: string)
    requires Free(scheme, ":") && Free(authority, "/?#") && Free(path, "?#")
    requires (path == "" || path[0] == '/') && (query == "" || query[0] == '?')
    ensures var url := scheme + ("://" + (authority + (path + query)));
      var (s, r1) := SplitAt(url, ":");
      && s == scheme && 3 <= |r1| && r1[..3] == "://"
      && SplitAt(r1[3..], "/?#") == (authority, path + query)
      && SplitAt(path + query, "?#") == (path, query)
  {
    var rest := authority + (path + query);
    SplitAtOf(scheme, "://" + rest, ":");
    assert ("://" + rest)[3..] == rest;
    assert path == "" ==> path + query == query;
    SplitAtOf(authority, path + query, "/?#");
    SplitAtOf(path, query, "?#");
  }

  /** Exactly what a URL loses: two plain strings render equal when they normalize alike, and
      only then. */
  lemma RendersEqual(a: ConnectionString, b: ConnectionString)
    requires Plain(a) && Plain(b)
    ensures Rendered(a) == Rendered(b) <==> Normalized(a) == Normalized(b)
  {
    RoundTrip(a);
    RoundTrip(b);
    RenderNormalized(a);
    RenderNormalized(b);
    hide Rendered, Parse;
  }

  lemma RenderNormalized(cs: ConnectionString)
    ensures Rendered(Normalized(cs)) == Rendered(cs)
  {
    assert Encoded("") == "";
    var h := RenderHost(cs.host);
    assert RenderHost(h) == h;
    hide Encoded, Decimal;
  }

  /** A password without a user reads back with an empty user: rendering cannot tell them apart. */
  lemma AbsentUserIsLost()
    ensures var a := ConnectionString("redis", None, Some("p"), "h", None, None, []);
      var b := a.(user := Some(""));
      a != b && Rendered(a) == Rendered(b)
  {
    var a := ConnectionString("redis", None, Some("p"), "h", None, None, []);
    RenderNormalized(a);
    assert !HasColon("h");
    hide Rendered;
  }

  // ----- the method

  method ToString(cs: ConnectionString) returns (url: string)
    requires BytesOnly(cs)   // the source's strings are byte strings
    ensures url == Rendered(cs)
    ensures Plain(cs) ==> Parse(url) == Some(AsRead(Normalized(cs)))
  {
    url := cs.scheme + "://";
    var info := UserInfoText(cs);
    url := url + info;
    url := url + RenderHost(cs.host);
    if cs.port.Some? {
      url := url + (":" + Decimal(cs.port.value));
    }
    ghost var port := if cs.port.Some? then ":" + Decimal(cs.port.value) else "";
    var path := PathText(cs);
    url := url + path;
    var query := QueryText(cs.params);
    url := url + query;
    if Plain(cs) {
      RoundTrip(cs);
    }
    hide *;
    Assembled(cs.scheme, info, RenderHost(cs.host), port, path, query);
    InPieces(cs);
  }

  lemma InPieces(cs: ConnectionString)
    ensures var port := if cs.port.Some? then ":" + Decimal(cs.port.value) else "";
      Rendered(cs) == cs.scheme + ("://" + ((RenderUserInfo(cs) + (RenderHost(cs.host) + port))
                                            + (RenderPath(cs) + RenderQuery(cs))))
  {
  }

  lemma Assembled(scheme: string, info: string, host: string, port: string, path: string, query: string)
    ensures scheme + "://" + info + host + port + path + query
         == scheme + ("://" + ((info + (host + port)) + (path + query)))
    ensures scheme + "://" + info + host + path + query == scheme + "://" + info + host + "" + path + query
  {
  }

  method UserInfoText(cs: ConnectionString) returns (info: string)
    requires BytesOnly(cs)
    ensures info == RenderUserInfo(cs)
  {
    hide Encoded;
    info := "";
    if cs.user.Some? || cs.password.Some? {
      if cs.user.Some? {
        var user := EncodeComponent(cs.user.value);
        info := info + user;
      }
      if cs.password.Some? {
        var password := EncodeComponent(cs.password.value);
        info := info + (":" + password);
      }
      info := info + "@";
    }
  }

  method PathText(cs: ConnectionString) returns (path: string)
    requires BytesOnly(cs)
    ensures path == RenderPath(cs)
  {
    path := "";
    if cs.database.Some? {
      var database := EncodeComponent(cs.database.value);
      path := "/" + database;
    }
  }

  /** The parameters, the first after '?' and the others after '&'. */
  method QueryText(params: seq<(string, string)>) returns (query: string)
    requires forall i :: 0 <= i < |params| ==> IsBytes(params[i].0) && IsBytes(params[i].1)
    ensures query == if params == [] then "" else "?" + Text.Join(RenderPairs(params), '&')
  {
    query := "";
    var sep := '?';
    for i := 0 to |params|
      invariant sep == if i == 0 then '?' else '&'
      invariant query == if i == 0 then "" else "?" + Text.Join(RenderPairs(params[..i]), '&')
    {
      var key := EncodeComponent(params[i].0);
      var value := EncodeComponent(params[i].1);
      OneMorePair(params, i);
      query := query + ([sep] + (key + "=" + value));
      sep := '&';
    }
    assert params[..|params|] == params;
  }

  lemma OneMorePair(params: seq<(string, string)>, i: nat)
    requires i < |params|
    ensures var pair := RenderPair(params[i]);
      "?" + Text.Join(RenderPairs(params[..i + 1]), '&') ==
      if i == 0 then "" + ("?" + pair) else "?" + Text.Join(RenderPairs(params[..i]), '&') + ("&" + pair)
  {
    var before, pair := RenderPairs(params[..i]), RenderPair(params[i]);
    assert RenderPairs(params[..i + 1]) == before + [pair];
    Text.JoinSnoc(before, pair, '&');
    hide Text.Join, RenderPair, RenderPairs;
  }
}
