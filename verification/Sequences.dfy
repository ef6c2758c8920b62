/** Regrouping and taking apart of sequences, kept out of the proofs that need it. */
module Sequences {
  lemma Assoc<T>(a: seq<T>, b: seq<T>, c: seq<T>)
    ensures a + (b + c) == a + b + c
  {
  }

  lemma Empty<T>(s: seq<T>)
    ensures [] + s == s == s + []
  {
  }

  lemma HeadTail<T>(s: seq<T>)
    requires s != []
    ensures s == [s[0]] + s[1..]
  {
  }

  lemma Cons<T>(x: T, s: seq<T>)
    ensures ([x] + s)[0] == x && ([x] + s)[1..] == s
  {
  }

  /** Dropping the first element of a sequence drops it from what is built on it. */
  lemma TailOfAppend<T>(a: seq<T>, b: seq<T>)
    requires a != []
    ensures (a + b)[0] == a[0] && (a + b)[1..] == a[1..] + b
  {
  }

  lemma FrontOfAppend<T>(a: seq<T>, b: seq<T>)
    ensures (a + b)[..|a|] == a && (a + b)[|a|..] == b
  {
  }

  lemma DropDrop<T>(s: seq<T>, i: nat, j: nat)
    requires i + j <= |s|
    ensures s[i..][j..] == s[i + j..]
  {
  }

  /** Whether one element stands at `i`. */
  lemma OneAt<T>(s: seq<T>, i: nat, x: T)
    requires i <= |s|
    ensures [x] <= s[i..] <==> i < |s| && s[i] == x
  {
    if i < |s| { assert s[i..][..1] == [s[i]]; }
  }

  /** One more element of a prefix. */
  lemma Longer<T>(s: seq<T>, i: nat)
    requires i < |s|
    ensures s[..i + 1] == s[..i] + [s[i]]
  {
  }

  lemma Whole<T>(s: seq<T>)
    ensures s[..|s|] == s == s[0..] && s[..0] == [] == s[|s|..]
  {
  }
}
