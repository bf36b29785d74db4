/**
  Facts about concatenation and slicing that hold for sequences of any
  element type. Stated once, generically, they are cheap to use inside the
  larger proofs about strings, bytes and buttons.
*/
module Seqs {

  /** Concatenation is associative. */
  lemma {:induction false} AppendAssoc<T>(a: seq<T>, b: seq<T>, c: seq<T>)
    ensures a + (b + c) == (a + b) + c
  {
  }

  /** A non-empty sequence is its head followed by its tail. */
  lemma {:induction false} HeadTail<T>(s: seq<T>)
    requires |s| > 0
    ensures [s[0]] + s[1..] == s
  {
  }

  /** The head of a non-empty sequence, put back in front of its tail and a suffix. */
  lemma {:induction false} ConsAppend<T>(s: seq<T>, d: seq<T>)
    requires |s| > 0
    ensures [s[0]] + (s[1..] + d) == s + d
  {
    assert [s[0]] + s[1..] == s;
  }

  /** A prefix grown by one element of `vs`. */
  lemma {:induction false} PrefixStep<T>(done: seq<T>, vs: seq<T>, j: nat)
    requires j < |vs|
    ensures done + vs[..j + 1] == (done + vs[..j]) + [vs[j]]
  {
    assert vs[..j + 1] == vs[..j] + [vs[j]];
  }

  /** A sequence of three elements in front of another. */
  lemma {:induction false} SplitThree<T>(t: seq<T>, u: seq<T>)
    requires |t| == 3
    ensures (t + u)[0] == t[0] && (t + u)[1] == t[1] && (t + u)[2] == t[2]
    ensures (t + u)[3..] == u
  {
  }

  /** Dropping the front part of a concatenation leaves the back part. */
  lemma {:induction false} DropFront<T>(a: seq<T>, b: seq<T>)
    ensures (a + b)[|a|..] == b
  {
  }

  /** `a`, a separator and `b`: the part before the separator is `a`. */
  lemma {:induction false} TakeFront<T>(a: seq<T>, sep: seq<T>, b: seq<T>)
    ensures (a + sep + b)[..|a|] == a
  {
  }

  /** `(x|y)|u` and `x|(y|u)` are the same sequence, for any separator. */
  lemma {:induction false} RegroupSeparators<T>(x: seq<T>, sep: seq<T>, y: seq<T>, u: seq<T>)
    ensures (x + sep + y) + sep + u == x + sep + (y + sep + u)
  {
  }

  /** Appending nothing changes nothing. */
  lemma {:induction false} AppendNothing<T>(a: seq<T>)
    ensures a + [] == a
  {
  }

  /** An element missing from both halves is missing from their concatenation. */
  lemma {:induction false} NotInAppend<T>(x: T, a: seq<T>, b: seq<T>)
    requires x !in a && x !in b
    ensures x !in a + b
  {
  }

  /** An element is in a concatenation exactly when it is in one of the halves. */
  lemma {:induction false} InAppend<T>(x: T, a: seq<T>, b: seq<T>)
    ensures x in a + b <==> x in a || x in b
  {
  }
}
