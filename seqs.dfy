/** Facts about sequence concatenation and slicing, stated over an arbitrary
    element type so that the solver does not unfold the elements. */
module Seqs {
  /** Extending a prefix by one element. */
  lemma PrefixSnoc<T>(s: seq<T>, i: nat)
    requires i < |s|
    ensures s[..i + 1] == s[..i] + [s[i]]
  {
  }

  /** Concatenation is associative. */
  lemma ConcatAssoc<T>(a: seq<T>, b: seq<T>, c: seq<T>)
    ensures (a + b) + c == a + (b + c)
  {
  }

  /** An element of a concatenation comes from the left or from the right part. */
  lemma ConcatIndex<T>(a: seq<T>, b: seq<T>, i: nat)
    requires i < |a| + |b|
    ensures (a + b)[i] == if i < |a| then a[i] else b[i - |a|]
  {
  }

  /** If two sequences are images of two others element by element, so are
      their concatenations. */
  lemma ConcatMap<A, B>(f: A -> B, a: seq<A>, b: seq<A>, x: seq<B>, y: seq<B>)
    requires |x| == |a| && |y| == |b|
    requires forall i :: 0 <= i < |a| ==> x[i] == f(a[i])
    requires forall i :: 0 <= i < |b| ==> y[i] == f(b[i])
    ensures |x + y| == |a + b|
    ensures forall i :: 0 <= i < |a + b| ==> (x + y)[i] == f((a + b)[i])
  {
    forall i | 0 <= i < |a + b|
      ensures (x + y)[i] == f((a + b)[i])
    {
      ConcatIndex(a, b, i);
      ConcatIndex(x, y, i);
    }
  }

  /** A non-empty sequence is its prefix followed by its last element. */
  lemma InitLast<T>(s: seq<T>)
    requires |s| > 0
    ensures s == s[..|s| - 1] + [s[|s| - 1]]
  {
  }

  /** The multiset of a concatenation is the sum of the multisets. */
  lemma MultisetConcat<T>(a: seq<T>, b: seq<T>)
    ensures multiset(a + b) == multiset(a) + multiset(b)
  {
  }

  /** An element that is not the last of a sequence is in its prefix. */
  lemma InitMember<T>(s: seq<T>, x: T)
    requires x in s && x != s[|s| - 1]
    ensures x in s[..|s| - 1]
  {
    var i :| 0 <= i < |s| && s[i] == x;
    assert s[..|s| - 1][i] == x;
  }

  /** The sequence without the element at position i. */
  function RemoveAt<T>(s: seq<T>, i: nat): (t: seq<T>)
    requires i < |s|
    ensures |t| == |s| - 1
    ensures multiset(t) == multiset(s) - multiset{s[i]}
  {
    assert s == s[..i] + [s[i]] + s[i+1..];
    s[..i] + s[i+1..]
  }
}
