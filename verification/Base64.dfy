/** Base64 as the registry-auth header and config.json need it: an encoder, and a decoder
    that keeps its bits in a wrapping 32-bit accumulator and skips padding and whitespace. */
module Base64 {
  import opened Bytes

  type sextet = v: int | 0 <= v < 64

  const UPPER := "ABCDEFGHIJKLMNOPQRSTUVWXYZ"
  const LOWER := "abcdefghijklmnopqrstuvwxyz"
  const DIGITS := "0123456789"
  const ALPHABET := UPPER + LOWER + DIGITS + "+/"
  const INVALID: byte := 0xFF

  // ----- letters

  /** The letter for a 6-bit value, by ranges (table 1 of RFC 4648). */
  function Letter(v: sextet): char {
    if v < 26 then 'A' + v as char
    else if v < 52 then 'a' + (v - 26) as char
    else if v < 62 then '0' + (v - 52) as char
    else if v == 62 then '+' else '/'
  }

  /** The 6-bit value of a letter, or INVALID. */
  function ValueOf(c: char): (v: byte)
    ensures v < 64 ==> Letter(v) == c
    ensures v < 64 || v == INVALID
  {
    if 'A' <= c <= 'Z' then c as int - 65
    else if 'a' <= c <= 'z' then c as int - 71
    else if '0' <= c <= '9' then c as int + 4
    else if c == '+' then 62 else if c == '/' then 63 else INVALID
  }

  lemma ValueOfLetter(v: sextet)
    ensures ValueOf(Letter(v)) == v
  {
  }

  lemma AlphabetIsLetters()
    ensures |ALPHABET| == 64 && forall i :: 0 <= i < 64 ==> ALPHABET[i] == Letter(i)
  {
    var k := 0;
    while k < 26
      invariant 0 <= k <= 26
      invariant forall i :: 0 <= i < k ==> UPPER[i] as int == 65 + i && LOWER[i] as int == 97 + i
    {
      k := k + 1;
    }
  }

  /** The reverse table, filled by walking the alphabet once. */
  method MakeDecodeTable() returns (table: array<byte>)
    ensures fresh(table) && table.Length == 256
    ensures forall c: char :: c as int < 256 ==> table[c as int] == ValueOf(c)
  {
    AlphabetIsLetters();
    hide ALPHABET;
    table := new byte[256](_ => INVALID);
    for i := 0 to 64
      invariant forall c: char :: c as int < 256 ==>
        table[c as int] == if ValueOf(c) < i then ValueOf(c) else INVALID
    {
      ValueOfLetter(i);
      hide ValueOf, Letter;
      table[ALPHABET[i] as int] := i;
    }
  }

  // ----- the encoder

  /** The 6-bit groups of a byte string; the last group is zero-filled. */
  function Sextets(b: seq<byte>): seq<sextet> {
    if b == [] then []
    else if |b| == 1 then [b[0] / 4, b[0] % 4 * 16]
    else if |b| == 2 then [b[0] / 4, b[0] % 4 * 16 + b[1] / 16, b[1] % 16 * 4]
    else [b[0] / 4, b[0] % 4 * 16 + b[1] / 16, b[1] % 16 * 4 + b[2] / 64, b[2] % 64] + Sextets(b[3..])
  }

  function Letters(vs: seq<sextet>): string {
    seq(|vs|, i requires 0 <= i < |vs| => Letter(vs[i]))
  }

  function Padding(n: nat): string {
    if n % 3 == 1 then "==" else if n % 3 == 2 then "=" else ""
  }

  /** The standard encoding (section 4 of RFC 4648). */
  function Encoded(b: seq<byte>): string {
    Letters(Sextets(b)) + Padding(|b|)
  }

  lemma LettersAppend(a: seq<sextet>, b: seq<sextet>)
    ensures Letters(a + b) == Letters(a) + Letters(b)
  {
  }

  method Encode(bytes: seq<byte>) returns (out: string)
    ensures out == Encoded(bytes)
  {
    var i;
    out, i := EncodeGroups(bytes);
    var last := EncodeLast(bytes[i..]);
    LastLetters(out, Letters(Sextets(bytes[i..])), Letters(Sextets(bytes)), |bytes|, i);
    out := out + last;
  }

  /** The full three-byte groups; `i` is where the last, shorter group begins. */
  method EncodeGroups(bytes: seq<byte>) returns (out: string, i: nat)
    ensures i <= |bytes| < i + 3 && i % 3 == 0
    ensures out + Letters(Sextets(bytes[i..])) == Letters(Sextets(bytes))
  {
    out, i := "", 0;
    assert bytes[0..] == bytes && out + Letters(Sextets(bytes)) == Letters(Sextets(bytes));
    while i + 3 <= |bytes|
      invariant i <= |bytes| && i % 3 == 0
      invariant out + Letters(Sextets(bytes[i..])) == Letters(Sextets(bytes))
    {
      var group := EncodeGroup(bytes[i], bytes[i + 1], bytes[i + 2]);
      GroupLetters(bytes, i, out);
      out := out + group;
      i := i + 3;
    }
  }

  method EncodeGroup(b0: byte, b1: byte, b2: byte) returns (r: string)
    ensures r == Group(b0, b1, b2)
  {
    AlphabetIsLetters();
    r := [ALPHABET[b0 / 4], ALPHABET[b0 % 4 * 16 + b1 / 16], ALPHABET[b1 % 16 * 4 + b2 / 64], ALPHABET[b2 % 64]];
  }

  function Group(b0: byte, b1: byte, b2: byte): string {
    [Letter(b0 / 4), Letter(b0 % 4 * 16 + b1 / 16), Letter(b1 % 16 * 4 + b2 / 64), Letter(b2 % 64)]
  }

  /** The final group of one or two bytes, if any, with its padding. */
  method EncodeLast(rest: seq<byte>) returns (out: string)
    requires |rest| < 3
    ensures out == Letters(Sextets(rest)) + Padding(|rest|)
  {
    AlphabetIsLetters();
    hide ALPHABET, Letters, Sextets, Letter;
    if |rest| == 1 {
      OneByteLetters(rest[0]);
      assert rest == [rest[0]];
      out := [ALPHABET[rest[0] / 4], ALPHABET[rest[0] % 4 * 16]];
      out := out + "==";
    } else if |rest| == 2 {
      TwoBytesLetters(rest[0], rest[1]);
      assert rest == [rest[0], rest[1]];
      out := [ALPHABET[rest[0] / 4], ALPHABET[rest[0] % 4 * 16 + rest[1] / 16], ALPHABET[rest[1] % 16 * 4]];
      out := out + "=";
    } else {
      OneByteLetters(0);
      out := "";
    }
  }

  lemma OneByteLetters(b0: byte)
    ensures Letters(Sextets([b0])) == [Letter(b0 / 4), Letter(b0 % 4 * 16)]
    ensures Letters(Sextets([])) == ""
  {
    assert Sextets([b0]) == [b0 / 4, b0 % 4 * 16];
    hide Letter, Sextets;
  }

  lemma TwoBytesLetters(b0: byte, b1: byte)
    ensures Letters(Sextets([b0, b1])) == [Letter(b0 / 4), Letter(b0 % 4 * 16 + b1 / 16), Letter(b1 % 16 * 4)]
  {
    assert Sextets([b0, b1]) == [b0 / 4, b0 % 4 * 16 + b1 / 16, b1 % 16 * 4];
    hide Letter, Sextets;
  }

  lemma SamePadding(n: nat, rem: nat)
    requires rem <= n && (n - rem) % 3 == 0
    ensures Padding(n) == Padding(rem)
  {
  }

  lemma LastLetters(out: string, part: string, whole: string, n: nat, i: nat)
    requires i <= n < i + 3 && i % 3 == 0 && out + part == whole
    ensures out + (part + Padding(n - i)) == whole + Padding(n)
  {
    Reassociate(out, part, Padding(n - i));
    SamePadding(n, n - i);
  }

  lemma GroupLetters(bytes: seq<byte>, i: nat, out: string)
    requires i + 3 <= |bytes|
    ensures out + Letters(Sextets(bytes[i..])) ==
            (out + Group(bytes[i], bytes[i + 1], bytes[i + 2])) + Letters(Sextets(bytes[i + 3..]))
  {
    var rest := bytes[i..];
    assert rest[3..] == bytes[i + 3..];
    var vs := Sextets(rest);
    var g := vs[..4];
    assert vs == g + Sextets(rest[3..]);
    LettersAppend(g, Sextets(rest[3..]));
    assert Letters(g) == Group(rest[0], rest[1], rest[2]);
  }

  /** Table 1 of RFC 4648: A to Z, a to z, 0 to 9, '+' and '/'. */
  lemma AlphabetByRanges(v: nat)
    requires v < 64
    ensures |ALPHABET| == 64
    ensures v < 26 ==> ALPHABET[v] as int == 'A' as int + v
    ensures 26 <= v < 52 ==> ALPHABET[v] as int == 'a' as int + (v - 26)
    ensures 52 <= v < 62 ==> ALPHABET[v] as int == '0' as int + (v - 52)
    ensures v == 62 ==> ALPHABET[v] == '+'
    ensures v == 63 ==> ALPHABET[v] == '/'
  {
    AlphabetIsLetters();
    hide ALPHABET;
  }

  function Spelling(vs: seq<sextet>): (s: string)
    ensures |s| == |vs| && |ALPHABET| == 64 && forall i :: 0 <= i < |vs| ==> s[i] == ALPHABET[vs[i]]
  {
    AlphabetIsLetters();
    seq(|vs|, i requires 0 <= i < |vs| => ALPHABET[vs[i]])
  }

  lemma LettersSpelled(vs: seq<sextet>)
    ensures Letters(vs) == Spelling(vs)
  {
    forall i | 0 <= i < |vs| ensures Letters(vs)[i] == Spelling(vs)[i] {
      AlphabetIsLetters();
    }
  }

  /** Three bytes are one number, and the four letters are its digits to base 64. */
  lemma EncodedThree(b0: byte, b1: byte, b2: byte, rest: seq<byte>) returns (v: seq<sextet>)
    ensures |v| == 4
    ensures v[0] as int * 262144 + v[1] as int * 4096 + v[2] as int * 64 + v[3] ==
            b0 as int * 65536 + b1 as int * 256 + b2
    ensures |ALPHABET| == 64
    ensures Encoded([b0, b1, b2] + rest) ==
            [ALPHABET[v[0]], ALPHABET[v[1]], ALPHABET[v[2]], ALPHABET[v[3]]] + Encoded(rest)
  {
    v := [b0 / 4, b0 % 4 * 16 + b1 / 16, b1 % 16 * 4 + b2 / 64, b2 % 64];
    GroupValue(b0, b1, b2);
    EncodedFirst(b0, b1, b2, rest);
    LettersSpelled(v);
    hide Letters, Sextets, Encoded, ALPHABET;
    assert Spelling(v) == [ALPHABET[v[0]], ALPHABET[v[1]], ALPHABET[v[2]], ALPHABET[v[3]]];
  }

  lemma GroupValue(b0: byte, b1: byte, b2: byte)
    ensures var (v0, v1, v2, v3) := (b0 / 4, b0 % 4 * 16 + b1 / 16, b1 % 16 * 4 + b2 / 64, b2 % 64);
      v0 as int * 262144 + v1 as int * 4096 + v2 as int * 64 + v3 == b0 as int * 65536 + b1 as int * 256 + b2
  {
  }

  lemma EncodedFirst(b0: byte, b1: byte, b2: byte, rest: seq<byte>)
    ensures var v: seq<sextet> := [b0 / 4, b0 % 4 * 16 + b1 / 16, b1 % 16 * 4 + b2 / 64, b2 % 64];
      Encoded([b0, b1, b2] + rest) == Letters(v) + Encoded(rest)
  {
    var v: seq<sextet> := [b0 / 4, b0 % 4 * 16 + b1 / 16, b1 % 16 * 4 + b2 / 64, b2 % 64];
    var all := [b0, b1, b2] + rest;
    assert all[3..] == rest && Sextets(all) == v + Sextets(rest);
    hide Sextets;
    LettersAppend(v, Sextets(rest));
    hide Letters;
    assert Padding(|all|) == Padding(|rest|);
  }

  /** A last group of two bytes is filled up with two zero bits, and its letters with one '='. */
  lemma EncodedTwo(b0: byte, b1: byte) returns (v: seq<sextet>)
    ensures |v| == 3 && |ALPHABET| == 64
    ensures v[0] as int * 4096 + v[1] as int * 64 + v[2] == (b0 as int * 256 + b1) * 4
    ensures Encoded([b0, b1]) == [ALPHABET[v[0]], ALPHABET[v[1]], ALPHABET[v[2]]] + "="
  {
    v := [b0 / 4, b0 % 4 * 16 + b1 / 16, b1 % 16 * 4];
    assert Sextets([b0, b1]) == v;
    LettersSpelled(v);
    hide Sextets, Letters, ALPHABET;
    assert Spelling(v) == [ALPHABET[v[0]], ALPHABET[v[1]], ALPHABET[v[2]]];
  }

  /** A last single byte with four zero bits, and its letters with two '='. */
  lemma EncodedOne(b0: byte) returns (v: seq<sextet>)
    ensures |v| == 2 && |ALPHABET| == 64
    ensures v[0] as int * 64 + v[1] == b0 as int * 16
    ensures Encoded([b0]) == [ALPHABET[v[0]], ALPHABET[v[1]]] + "=="
    ensures Encoded([]) == ""
  {
    v := [b0 / 4, b0 % 4 * 16];
    assert Sextets([b0]) == v;
    LettersSpelled(v);
    hide Letters, ALPHABET;
    assert Spelling(v) == [ALPHABET[v[0]], ALPHABET[v[1]]];
  }

  /** A whole number of groups of four, and '=' only as the last character or two. */
  lemma {:induction false} EncodedShape(b: seq<byte>)
    ensures |Encoded(b)| % 4 == 0
    ensures forall i :: 0 <= i < |Encoded(b)| && Encoded(b)[i] == '=' ==>
      |Encoded(b)| - 2 <= i && (|b| % 3 == 2 ==> i == |Encoded(b)| - 1) && |b| % 3 != 0
    decreases |b|
  {
    if |b| < 3 {
      LettersAreNoPadding(Sextets(b));
    } else {
      EncodedShape(b[3..]);
      assert b == [b[0], b[1], b[2]] + b[3..];
      LettersAreNoPadding(Sextets(b));
    }
  }

  lemma LettersAreNoPadding(vs: seq<sextet>)
    ensures forall c :: c in Letters(vs) ==> c != '='
  {
  }

  // ----- the decoder

  predicate Skipped(c: char) {
    c == '=' || c == '\n' || c == '\r' || c == ' ' || c == '\t'
  }

  /** The text without padding and whitespace. */
  function Strip(s: string): string {
    if s == "" then "" else if Skipped(s[0]) then Strip(s[1..]) else [s[0]] + Strip(s[1..])
  }

  type bitcount = k: nat | k == 0 || k == 2 || k == 4 || k == 6

  /** Pending bits of an unfinished byte, as a number below 2^k. */
  function Pow2(k: bitcount): nat {
    if k == 0 then 1 else if k == 2 then 4 else if k == 4 then 16 else 64
  }

  /** Packs 6-bit groups into bytes behind `k` pending bits of value `p`; bits that do not
      fill a last byte are dropped. */
  function Pack(vs: seq<sextet>, p: nat, k: bitcount): seq<byte>
    requires p < Pow2(k)
    decreases |vs|
  {
    if vs == [] then []
    else if k == 0 then Pack(vs[1..], vs[0], 6)
    else [(p * 64 + vs[0]) / Pow2(k - 2)] + Pack(vs[1..], (p * 64 + vs[0]) % Pow2(k - 2), k - 2)
  }

  /** Every character is a letter or skipped. */
  ghost predicate WellFormed(s: string) {
    forall c :: c in s ==> Skipped(c) || ValueOf(c) != INVALID
  }

  function Values(s: string): seq<sextet> {
    if s == "" then []
    else if ValueOf(s[0]) == INVALID then Values(s[1..])
    else [ValueOf(s[0])] + Values(s[1..])
  }

  /** What a text decodes to: nothing at all when any character is foreign. */
  ghost function Decoded(s: string): seq<byte> {
    if WellFormed(s) then Pack(Values(s), 0, 0) else []
  }

  const WORD := 0x1_0000_0000   // the accumulator is 32 bits wide and wraps

  /** Shifting a letter in and taking a byte out of the wrapped accumulator is what Pack does
      to the pending bits, because those bits never reach the wrapping end. */
  lemma AccumulatorStep(buffer: nat, k: bitcount, v: sextet)
    ensures var next := (buffer * 64 + v) % WORD;
      var p := buffer % Pow2(k);
      if k == 0 then next % 64 == v
      else next % Pow2(k - 2) == (p * 64 + v) % Pow2(k - 2)
           && next / Pow2(k - 2) % 256 == (p * 64 + v) / Pow2(k - 2)
  {
    if k == 2 {
      Step2(buffer, v);
    } else if k == 4 {
      Step4(buffer, v);
    } else if k == 6 {
      Step6(buffer, v);
    }
  }

  lemma Step2(buffer: nat, v: sextet)
    ensures (buffer * 64 + v) % WORD % 256 == buffer % 4 * 64 + v
  {
    var lost, q := (buffer * 64 + v) / WORD, buffer / 4;
    assert (buffer * 64 + v) % WORD == 256 * (q - 0x100_0000 * lost) + (buffer % 4 * 64 + v);
  }

  lemma Step4(buffer: nat, v: sextet)
    ensures var (next, t) := ((buffer * 64 + v) % WORD, buffer % 16 * 64 + v);
      next % 4 == t % 4 && next / 4 % 256 == t / 4
  {
    var lost, q, t := (buffer * 64 + v) / WORD, buffer / 16, buffer % 16 * 64 + v;
    Digits4((buffer * 64 + v) % WORD, q - 0x40_0000 * lost, t / 4, t % 4);
  }

  lemma Step6(buffer: nat, v: sextet)
    ensures var (next, t) := ((buffer * 64 + v) % WORD, buffer % 64 * 64 + v);
      next % 16 == t % 16 && next / 16 % 256 == t / 16
  {
    var lost, q, t := (buffer * 64 + v) / WORD, buffer / 64, buffer % 64 * 64 + v;
    Digits16((buffer * 64 + v) % WORD, q - 0x10_0000 * lost, t / 16, t % 16);
  }

  lemma Digits4(x: int, high: int, middle: nat, low: nat)
    requires middle < 256 && low < 4 && x == 4 * (256 * high + middle) + low
    ensures x % 4 == low && x / 4 % 256 == middle
  {
    assert x / 4 == 256 * high + middle;
  }

  lemma Digits16(x: int, high: int, middle: nat, low: nat)
    requires middle < 256 && low < 16 && x == 16 * (256 * high + middle) + low
    ensures x % 16 == low && x / 16 % 256 == middle
  {
    assert x / 16 == 256 * high + middle;
  }

  method Decode(b64: string) returns (out: seq<byte>)
    requires forall c :: c in b64 ==> c as int < 256   // the text is a byte string
    ensures out == Decoded(b64)
  {
    var table := MakeDecodeTable();
    out := [];
    var buffer: nat, bits: bitcount := 0, 0;
    assert b64[0..] == b64;
    for i := 0 to |b64|
      modifies {}
      invariant WellFormed(b64[..i])
      invariant out + Pack(Values(b64[i..]), buffer % Pow2(bits), bits) == Pack(Values(b64), 0, 0)
    {
      var c := b64[i];
      assert b64[i..][1..] == b64[i + 1..];
      WellFormedSnoc(b64, i);
      if Skipped(c) {
        continue;
      }
      var value := table[c as int];
      assert c in b64;
      assert value == ValueOf(c);
      if value == INVALID {
        return [];
      }
      ghost var before := out;
      var emitted;
      buffer, bits, emitted := Push(buffer, bits, value);
      out := out + emitted;
      Reassociate(before, emitted, Pack(Values(b64[i + 1..]), buffer % Pow2(bits), bits));
    }
    assert b64[..|b64|] == b64;
  }

  lemma Reassociate<T>(a: seq<T>, b: seq<T>, c: seq<T>)
    ensures a + (b + c) == (a + b) + c
  {
  }

  /** One letter into the accumulator, and a byte out of it once eight bits are there. */
  method Push(buffer0: nat, bits0: bitcount, value: sextet) returns (buffer: nat, bits: bitcount, emitted: seq<byte>)
    ensures forall tail ::
      Pack([value] + tail, buffer0 % Pow2(bits0), bits0) == emitted + Pack(tail, buffer % Pow2(bits), bits)
  {
    AccumulatorStep(buffer0, bits0, value);
    buffer := (buffer0 * 64 + value) % WORD;
    if bits0 + 6 >= 8 {
      bits := bits0 - 2;
      emitted := [buffer / Pow2(bits) % 256];
    } else {
      bits := bits0 + 6;
      emitted := [];
    }
    forall tail
      ensures Pack([value] + tail, buffer0 % Pow2(bits0), bits0) == emitted + Pack(tail, buffer % Pow2(bits), bits)
    {
      assert ([value] + tail)[1..] == tail;
      assert [] + Pack(tail, buffer % Pow2(bits), bits) == Pack(tail, buffer % Pow2(bits), bits);
    }
  }

  lemma WellFormedSnoc(s: string, i: nat)
    requires i < |s|
    ensures WellFormed(s[..i + 1]) <==> WellFormed(s[..i]) && (Skipped(s[i]) || ValueOf(s[i]) != INVALID)
  {
    assert s[..i + 1] == s[..i] + [s[i]];
    assert forall c :: c in s[..i + 1] <==> c in s[..i] || c == s[i];
  }

  // ----- round trips

  lemma {:induction false} ValuesOfStripped(s: string)
    ensures Values(Strip(s)) == Values(s)
    ensures WellFormed(Strip(s)) <==> WellFormed(s)
    decreases |s|
  {
    if s == "" {
    } else {
      ValuesOfStripped(s[1..]);
      assert forall c :: c in s <==> c == s[0] || c in s[1..];
      if !Skipped(s[0]) {
        assert Strip(s)[1..] == Strip(s[1..]);
        assert forall c :: c in Strip(s) <==> c == s[0] || c in Strip(s[1..]);
      }
    }
  }

  lemma {:induction false} ValuesOfLetters(vs: seq<sextet>, pad: string)
    requires forall c :: c in pad ==> Skipped(c)
    ensures Values(Letters(vs) + pad) == vs && WellFormed(Letters(vs) + pad)
    decreases |vs| + |pad|
  {
    if vs == [] && pad == "" {
      assert Letters(vs) + pad == "";
    } else if vs != [] {
      var s := Letters(vs) + pad;
      assert s[1..] == Letters(vs[1..]) + pad;
      ValuesOfLetters(vs[1..], pad);
      ValueOfLetter(vs[0]);
      assert forall c :: c in s <==> c == s[0] || c in s[1..];
    } else {
      assert vs == [] && Skipped(pad[0]);
      assert Letters(vs) + pad == pad && Letters(vs) + pad[1..] == pad[1..];
      ValuesOfLetters(vs, pad[1..]);
      assert Values(pad) == Values(pad[1..]) == [];
      assert forall c :: c in pad <==> c == pad[0] || c in pad[1..];
    }
  }

  lemma {:induction false} PackSextets(b: seq<byte>)
    ensures Pack(Sextets(b), 0, 0) == b
    decreases |b|
  {
    if |b| < 3 {
      PackShort(b);
    } else {
      var vs := Sextets(b);
      assert vs == [vs[0], vs[1], vs[2], vs[3]] + Sextets(b[3..]);
      GroupBytes(b[0], b[1], b[2]);
      assert b == [b[0], b[1], b[2]] + b[3..];
      PackSextets(b[3..]);
      hide Pack, Sextets;
      PackGroup(vs[0], vs[1], vs[2], vs[3], Sextets(b[3..]));
    }
  }

  lemma PackShort(b: seq<byte>)
    requires |b| < 3
    ensures Pack(Sextets(b), 0, 0) == b
  {
    hide Pack, Sextets;
    PackNothing();
    if |b| == 2 {
      PackTwoBytes(b[0], b[1]);
      assert b == [b[0], b[1]];
    } else if |b| == 1 {
      PackOneByte(b[0]);
      assert b == [b[0]];
    }
  }

  lemma PackNothing()
    ensures Pack(Sextets([]), 0, 0) == []
  {
  }

  lemma PackTwoBytes(b0: byte, b1: byte)
    ensures Pack(Sextets([b0, b1]), 0, 0) == [b0, b1]
  {
    GroupBytes(b0, b1, 0);
    var (v0: sextet, v1: sextet, v2: sextet) := (b0 / 4, b0 % 4 * 16 + b1 / 16, b1 % 16 * 4);
    PackThree(v0, v1, v2, []);
    assert Sextets([b0, b1]) == [v0, v1, v2];
    assert [v0, v1, v2] + [] == [v0, v1, v2] && Pack([], v2 % 4, 2) == [];
    hide Pack;
  }

  lemma PackOneByte(b0: byte)
    ensures Pack(Sextets([b0]), 0, 0) == [b0]
  {
    GroupBytes(b0, 0, 0);
    var (v0: sextet, v1: sextet) := (b0 / 4, b0 % 4 * 16);
    PackTwo(v0, v1, []);
    assert Sextets([b0]) == [v0, v1];
    assert [v0, v1] + [] == [v0, v1] && Pack([], v1 % 16, 4) == [];
    hide Pack;
  }

  /** Regrouping three bytes as four sextets loses nothing. */
  lemma GroupBytes(b0: byte, b1: byte, b2: byte)
    ensures var (v0, v1, v2, v3) := (b0 / 4, b0 % 4 * 16 + b1 / 16, b1 % 16 * 4 + b2 / 64, b2 % 64);
      v0 * 4 + v1 / 16 == b0 && v1 % 16 * 16 + v2 / 4 == b1 && v2 % 4 * 64 + v3 == b2
  {
  }

  lemma PackGroup(v0: sextet, v1: sextet, v2: sextet, v3: sextet, rest: seq<sextet>)
    ensures Pack([v0, v1, v2, v3] + rest, 0, 0)
         == [v0 * 4 + v1 / 16, v1 % 16 * 16 + v2 / 4, v2 % 4 * 64 + v3] + Pack(rest, 0, 0)
  {
    PackThree(v0, v1, v2, [v3] + rest);
    assert [v0, v1, v2] + ([v3] + rest) == [v0, v1, v2, v3] + rest;
    assert ([v3] + rest)[1..] == rest;
    assert (v2 % 4 * 64 + v3) / 1 == v2 % 4 * 64 + v3 && (v2 % 4 * 64 + v3) % 1 == 0;
  }

  lemma PackThree(v0: sextet, v1: sextet, v2: sextet, rest: seq<sextet>)
    ensures Pack([v0, v1, v2] + rest, 0, 0)
         == [v0 * 4 + v1 / 16, v1 % 16 * 16 + v2 / 4] + Pack(rest, v2 % 4, 2)
  {
    PackTwo(v0, v1, [v2] + rest);
    assert [v0, v1] + ([v2] + rest) == [v0, v1, v2] + rest;
    assert ([v2] + rest)[1..] == rest;
    assert (v1 % 16 * 64 + v2) / 4 == v1 % 16 * 16 + v2 / 4 && (v1 % 16 * 64 + v2) % 4 == v2 % 4;
  }

  lemma PackTwo(v0: sextet, v1: sextet, rest: seq<sextet>)
    ensures Pack([v0, v1] + rest, 0, 0) == [v0 * 4 + v1 / 16] + Pack(rest, v1 % 16, 4)
  {
    assert ([v0, v1] + rest)[1..] == [v1] + rest;
    assert ([v1] + rest)[1..] == rest;
    assert (v0 * 64 + v1) / 16 == v0 * 4 + v1 / 16 && (v0 * 64 + v1) % 16 == v1 % 16;
  }

  /** Decoding returns the encoded bytes, also after any padding is dropped and whitespace
      is inserted anywhere. */
  lemma RoundTrip(b: seq<byte>, s: string)
    requires Strip(s) == Strip(Encoded(b))
    ensures Decoded(s) == b
  {
    ValuesOfStripped(s);
    ValuesOfStripped(Encoded(b));
    ValuesOfLetters(Sextets(b), Padding(|b|));
    PackSextets(b);
  }

  /** Padding and whitespace anywhere make no difference. */
  lemma SkippedAnywhere(a: string, c: char, b: string)
    requires c == '=' || c == '\n' || c == '\r' || c == ' ' || c == '\t'
    ensures Decoded(a + [c] + b) == Decoded(a + b)
  {
    ValuesAppend(a + [c], b);
    ValuesAppend(a, [c]);
    ValuesAppend(a, b);
    assert ValueOf(c) == INVALID && [c][1..] == "";
    assert Values([c]) == [] && Values(a) + [] == Values(a);
    assert forall d :: d in a + [c] + b <==> d in a + b || d == c;
    assert WellFormed(a + [c] + b) <==> WellFormed(a + b);
  }

  lemma {:induction false} ValuesAppend(a: string, b: string)
    ensures Values(a + b) == Values(a) + Values(b)
    decreases |a|
  {
    if a == "" {
      assert a + b == b;
    } else {
      assert (a + b)[1..] == a[1..] + b;
      ValuesAppend(a[1..], b);
    }
  }

  lemma LetterIsListed(c: char)
    requires ValueOf(c) != INVALID
    ensures c in ALPHABET
  {
    AlphabetIsLetters();
    hide ALPHABET;
    assert ALPHABET[ValueOf(c)] == c;
  }

  /** Any other character makes the whole text worth nothing. */
  lemma ForeignGivesNothing(s: string, c: char)
    requires c in s && c !in ALPHABET && c != '=' && c != '\n' && c != '\r' && c != ' ' && c != '\t'
    ensures Decoded(s) == []
  {
    if ValueOf(c) != INVALID {
      LetterIsListed(c);
    }
  }

  /** The whole pipeline on one value. */
  method EncodeThenDecode(bytes: seq<byte>) returns (back: seq<byte>)
    ensures back == bytes
  {
    var text := Encode(bytes);
    RoundTrip(bytes, text);
    back := Decode(text);
  }
}
