/** Small shared vocabulary of the model. */
module Util {

  /** An optional value. Besides the source's own `Option`, `None` also stands for a
      panic of the source (an out-of-range index, a pop from an empty stack, an
      integer underflow): every such place returns `None` in the model, and the
      theorems show that it cannot happen on compiled input. */
  datatype Option<+T> = None | Some(value: T)

  /** The elements of `s` are pairwise different. */
  predicate Distinct<T(==)>(s: seq<T>)
  {
    forall i, j :: 0 <= i < j < |s| ==> s[i] != s[j]
  }

  /** Regrouping a concatenation. */
  lemma AppendAssociative<T>(a: seq<T>, b: seq<T>, c: seq<T>)
    ensures a + b + c == a + (b + c)
  {
  }

  /** Moving the boundary of a middle part of three pieces. */
  lemma Regroup<T>(p: seq<T>, x: seq<T>, y: seq<T>, z: seq<T>, q: seq<T>)
    ensures p + (x + y + z) + q == p + x + (y + z + q)
    ensures p + x + (y + z + q) == (p + x) + y + (z + q)
  {
  }

  /** The last `d` elements of `p + q`, when they reach into `p`. */
  lemma TailAcross<T>(p: seq<T>, q: seq<T>, d: nat)
    requires |q| <= d <= |p| + |q|
    ensures (p + q)[|p| + |q| - d..] == p[|p| + |q| - d..] + q
  {
  }

  /** The last `d` elements of `p + q`, when they lie within `q`. */
  lemma TailWithin<T>(p: seq<T>, q: seq<T>, d: nat)
    requires d <= |q|
    ensures (p + q)[|p| + |q| - d..] == q[|q| - d..]
  {
  }

  /** A prefix one element longer. */
  lemma PrefixStep<T>(s: seq<T>, i: nat)
    requires i < |s|
    ensures s[..i + 1] == s[..i] + [s[i]]
  {
  }
}
