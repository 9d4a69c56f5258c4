/** Byte strings, and concatenation of chunk lists. */
module Bytes {
  type byte = x: int | 0 <= x < 256

  /** The whole input a list of chunks amounts to. */
  function Concat<T>(chunks: seq<seq<T>>): seq<T> {
    if chunks == [] then [] else chunks[0] + Concat(chunks[1..])
  }

  lemma {:induction false} ConcatSnoc<T>(chunks: seq<seq<T>>, c: seq<T>)
    ensures Concat(chunks + [c]) == Concat(chunks) + c
    decreases |chunks|
  {
    if chunks == [] {
      assert [c][1..] == [];
    } else {
      assert (chunks + [c])[1..] == chunks[1..] + [c];
      ConcatSnoc(chunks[1..], c);
    }
  }

  function Sum(s: seq<nat>): nat {
    if s == [] then 0 else s[0] + Sum(s[1..])
  }

  lemma {:induction false} SumAppend(a: seq<nat>, b: seq<nat>)
    ensures Sum(a + b) == Sum(a) + Sum(b)
    decreases |a|
  {
    if a == [] {
      assert a + b == b;
    } else {
      assert (a + b)[1..] == a[1..] + b;
      SumAppend(a[1..], b);
    }
  }

  lemma {:induction false} SumBounded(s: seq<nat>, each: nat)
    requires forall i :: 0 <= i < |s| ==> s[i] <= each
    ensures Sum(s) <= each * |s|
    decreases |s|
  {
    if s == [] {
    } else {
      SumBounded(s[1..], each);
    }
  }

  lemma {:induction false} SumConstant(s: seq<nat>, each: nat)
    requires forall i :: 0 <= i < |s| ==> s[i] == each
    ensures Sum(s) == each * |s|
    decreases |s|
  {
    if s == [] {
    } else {
      SumConstant(s[1..], each);
    }
  }
}
