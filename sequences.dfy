/**
 * First-seen de-duplication of a sequence, the meaning of
 * `Array.from(new Set(xs))` and of an append-if-absent fold.
 */
module Sequences {

  ghost predicate NoDuplicates<T>(s: seq<T>)
  {
    forall i, j :: 0 <= i < j < |s| ==> s[i] != s[j]
  }

  /** The position of the first occurrence of `x` in `xs`. */
  function IndexOf<T(==)>(xs: seq<T>, x: T): (i: nat)
    requires x in xs
    ensures i < |xs| && xs[i] == x && x !in xs[..i]
  {
    if xs[0] == x then 0
    else
      var i := 1 + IndexOf(xs[1..], x);
      assert xs[..i] == [xs[0]] + xs[1..][..i - 1];
      i
  }

  /** A position holding `x` with no earlier `x` is the first occurrence. */
  lemma IndexOfUnique<T>(xs: seq<T>, x: T, i: nat)
    requires i < |xs| && xs[i] == x && x !in xs[..i]
    ensures IndexOf(xs, x) == i
  {
  }

  /** Extending a sequence does not move a first occurrence. */
  lemma IndexOfPrefix<T>(xs: seq<T>, n: nat, x: T)
    requires n <= |xs| && x in xs[..n]
    ensures x in xs && IndexOf(xs[..n], x) == IndexOf(xs, x)
  {
    var k := IndexOf(xs[..n], x);
    assert xs[..n][..k] == xs[..k];
    IndexOfUnique(xs, x, k);
  }

  /**
   * The elements of `xs` without repetitions, each kept where it first
   * occurs: `xs` is read left to right and an element is appended when it
   * has not been seen, as a JavaScript `Set` does on insertion.
   */
  function Distinct<T(==)>(xs: seq<T>): (d: seq<T>)
    ensures NoDuplicates(d)
    ensures forall i :: 0 <= i < |d| ==> d[i] in xs
    ensures forall i :: 0 <= i < |xs| ==> xs[i] in d
    ensures |d| <= |xs|
  {
    if xs == [] then []
    else
      var seen := Distinct(xs[..|xs| - 1]);
      var x := xs[|xs| - 1];
      assert xs == xs[..|xs| - 1] + [x];
      if x in seen then seen else seen + [x]
  }

  /** The elements of Distinct(xs) appear in the order of their first occurrence in xs. */
  lemma {:induction false} DistinctFirstSeen<T>(xs: seq<T>)
    ensures forall i, j :: 0 <= i < j < |Distinct(xs)| ==>
      IndexOf(xs, Distinct(xs)[i]) < IndexOf(xs, Distinct(xs)[j])
  {
    if xs != [] {
      var n := |xs| - 1;
      var d, seen := Distinct(xs), Distinct(xs[..n]);
      DistinctFirstSeen(xs[..n]);
      forall i, j | 0 <= i < j < |d|
        ensures IndexOf(xs, d[i]) < IndexOf(xs, d[j])
      {
        assert d[i] == seen[i] && d[i] in seen;
        IndexOfPrefix(xs, n, d[i]);
        if j < |seen| {
          assert d[j] == seen[j] && d[j] in seen;
          IndexOfPrefix(xs, n, d[j]);
        } else {
          assert d[j] == xs[n] && xs[n] !in xs[..n];
          IndexOfUnique(xs, xs[n], n);
        }
      }
    }
  }
}
