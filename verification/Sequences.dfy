/** Facts about concatenation, stated once so that other proofs can call them instead of searching. */
module Sequences {

  lemma Assoc<T>(a: seq<T>, b: seq<T>, c: seq<T>)
    ensures (a + b) + c == a + (b + c)
  {
  }

  lemma Assoc4<T>(a: seq<T>, b: seq<T>, c: seq<T>, d: seq<T>)
    ensures ((a + b) + c) + d == a + (b + (c + d))
  {
  }

  lemma EmptyUnit<T>(a: seq<T>)
    ensures [] + a == a && a + [] == a
  {
  }

  /** Cutting a concatenation at its seam. */
  lemma Seam<T>(a: seq<T>, b: seq<T>)
    ensures (a + b)[..|a|] == a && (a + b)[|a|..] == b
  {
  }

  /** f over the first n elements. */
  function MapFirst<A, B>(f: A -> B, s: seq<A>, n: nat): (r: seq<B>)
    requires n <= |s|
    ensures |r| == n
  {
    if n == 0 then [] else MapFirst(f, s, n - 1) + [f(s[n - 1])]
  }

  lemma {:induction false} MapFirstAt<A, B>(f: A -> B, s: seq<A>, n: nat, i: nat)
    requires i < n <= |s|
    ensures MapFirst(f, s, n)[i] == f(s[i])
  {
    if i < n - 1 {
      MapFirstAt(f, s, n - 1, i);
    }
  }

  /** f over all elements, concatenated. */
  function FlatMap<A, B>(f: A -> seq<B>, s: seq<A>): seq<B> {
    if s == [] then [] else f(s[0]) + FlatMap(f, s[1..])
  }

  lemma {:induction false} FlatMapAdd<A, B>(f: A -> seq<B>, a: seq<A>, b: seq<A>)
    ensures FlatMap(f, a + b) == FlatMap(f, a) + FlatMap(f, b)
  {
    if a == [] {
      EmptyUnit(b);
      EmptyUnit(FlatMap(f, b));
    } else {
      FlatMapAdd(f, a[1..], b);
      assert (a + b)[1..] == a[1..] + b;
      Assoc(f(a[0]), FlatMap(f, a[1..]), FlatMap(f, b));
    }
  }
}
