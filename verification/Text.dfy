/** Splitting and joining text on a separator character, shared by the line and path readers. */
module Text {

  /** The pieces of `s` between occurrences of `sep`; always at least one piece. */
  function Split(s: string, sep: char): (pieces: seq<string>)
    ensures pieces != []
    decreases |s|
  {
    if s == [] then [[]]
    else if s[0] == sep then [[]] + Split(s[1..], sep)
    else
      var rest := Split(s[1..], sep);
      [[s[0]] + rest[0]] + rest[1..]
  }

  function Join(pieces: seq<string>, sep: char): string {
    if pieces == [] then []
    else if |pieces| == 1 then pieces[0]
    else pieces[0] + [sep] + Join(pieces[1..], sep)
  }

  /** A separator-free head followed by the separator is split off as one piece. */
  lemma {:induction false} SplitCons(head: string, tail: string, sep: char)
    requires sep !in head
    ensures Split(head + [sep] + tail, sep) == [head] + Split(tail, sep)
    decreases |head|
  {
    var s := head + [sep] + tail;
    if head == [] {
      assert s[1..] == tail;
    } else {
      assert s[1..] == head[1..] + [sep] + tail;
      SplitCons(head[1..], tail, sep);
      assert [s[0]] + head[1..] == head;
    }
  }

  lemma {:induction false} SplitSingle(s: string, sep: char)
    requires sep !in s
    ensures Split(s, sep) == [s]
    decreases |s|
  {
    if s == [] {
    } else {
      SplitSingle(s[1..], sep);
      assert [s[0]] + s[1..] == s;
    }
  }

  lemma {:induction false} SplitJoin(pieces: seq<string>, sep: char)
    requires pieces != [] && forall p :: p in pieces ==> sep !in p
    ensures Split(Join(pieces, sep), sep) == pieces
    decreases |pieces|
  {
    if |pieces| == 1 {
      SplitSingle(pieces[0], sep);
    } else {
      SplitCons(pieces[0], Join(pieces[1..], sep), sep);
      SplitJoin(pieces[1..], sep);
      hide Split;
      assert [pieces[0]] + pieces[1..] == pieces;
    }
  }

  lemma {:induction false} SplitPiecesAreFree(s: string, sep: char)
    ensures forall p :: p in Split(s, sep) ==> sep !in p
    decreases |s|
  {
    if s == [] {
    } else {
      SplitPiecesAreFree(s[1..], sep);
    }
  }

  /** Joining undoes splitting, so splitting loses nothing. */
  lemma {:induction false} JoinSplit(s: string, sep: char)
    ensures Join(Split(s, sep), sep) == s
    decreases |s|
  {
    if s == [] {
    } else {
      JoinSplit(s[1..], sep);
      var rest := Split(s[1..], sep);
      if s[0] == sep {
        assert Split(s, sep)[1..] == rest;
      } else {
        assert Split(s, sep)[1..] == rest[1..];
      }
    }
  }

  lemma {:induction false} JoinSnoc(pieces: seq<string>, last: string, sep: char)
    ensures Join(pieces + [last], sep) == if pieces == [] then last else Join(pieces, sep) + ([sep] + last)
    decreases |pieces|
  {
    if pieces == [] {
    } else {
      assert (pieces + [last])[1..] == pieces[1..] + [last];
      JoinSnoc(pieces[1..], last, sep);
      JoinGroup(pieces[0], Join(pieces[1..], sep), last, sep);
    }
  }

  lemma JoinGroup(first: string, rest: string, last: string, sep: char)
    ensures first + [sep] + (rest + ([sep] + last)) == (first + [sep] + rest) + ([sep] + last)
    ensures first + [sep] + last == first + ([sep] + last)
  {
  }

  /** A separator splits the text, wherever it stands. */
  lemma {:induction false} SplitAtSeparator(a: string, b: string, sep: char)
    ensures Split(a + [sep] + b, sep) == Split(a, sep) + Split(b, sep)
    decreases |a|
  {
    var s := a + [sep] + b;
    if a == "" {
      assert s[1..] == b;
    } else {
      assert s[1..] == a[1..] + [sep] + b;
      SplitAtSeparator(a[1..], b, sep);
    }
  }

  /** Splitting after a trailing piece: a separator at the end adds one empty piece. */
  lemma {:induction false} SplitSnocSep(s: string, sep: char)
    ensures Split(s + [sep], sep) == Split(s, sep) + [[]]
    decreases |s|
  {
    if s == [] {
      assert (s + [sep])[1..] == [];
    } else {
      assert (s + [sep])[1..] == s[1..] + [sep];
      SplitSnocSep(s[1..], sep);
    }
  }

  /** Only the last piece of `a` can grow when more text follows. */
  lemma {:induction false} SplitAppend(a: string, b: string, sep: char)
    ensures var pa := Split(a, sep); var last := |pa| - 1;
      Split(a + b, sep) == pa[..last] + Split(pa[last] + b, sep)
    decreases |a|
  {
    if a == [] {
      assert a + b == [] + b == b;
    } else {
      assert (a + b)[1..] == a[1..] + b;
      SplitAppend(a[1..], b, sep);
      var rest := Split(a[1..], sep);
      var last := |rest| - 1;
      if a[0] == sep {
        assert Split(a, sep) == [[]] + rest;
        GlueEmpty(rest, Split(rest[last] + b, sep));
      } else {
        assert Split(a, sep) == [[a[0]] + rest[0]] + rest[1..];
        GlueChar(a[0], rest, b, sep);
      }
    }
  }

  lemma GlueEmpty(rest: seq<string>, more: seq<string>)
    requires rest != []
    ensures var pa := [[]] + rest; var last := |rest| - 1;
      [[]] + (rest[..last] + more) == pa[..last + 1] + more && pa[last + 1] == rest[last]
  {
  }

  lemma GlueChar(c: char, rest: seq<string>, b: string, sep: char)
    requires rest != [] && c != sep
    ensures var pa := [[c] + rest[0]] + rest[1..]; var last := |rest| - 1;
      var tail := rest[..last] + Split(rest[last] + b, sep);
      [[c] + tail[0]] + tail[1..] == pa[..last] + Split(pa[last] + b, sep)
  {
    var pa := [[c] + rest[0]] + rest[1..];
    var last := |rest| - 1;
    if last == 0 {
      assert (pa[0] + b)[1..] == rest[0] + b && (pa[0] + b)[0] == c;
      assert rest[..0] + Split(rest[0] + b, sep) == Split(rest[0] + b, sep);
      assert pa[..0] + Split(pa[0] + b, sep) == Split(pa[0] + b, sep);
    } else {
      assert pa[last] == rest[last];
      hide Split;
    }
  }

  /** The first occurrence of `sep` at or after `from`, or |s|. */
  method Find(s: string, sep: char, from: nat) returns (k: nat)
    requires from <= |s|
    ensures from <= k <= |s|
    ensures sep !in s[from..k]
    ensures k < |s| ==> s[k] == sep
  {
    k := from;
    while k < |s| && s[k] != sep
      invariant from <= k <= |s|
      invariant sep !in s[from..k]
    {
      k := k + 1;
    }
  }
}
