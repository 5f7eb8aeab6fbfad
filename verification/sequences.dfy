/** Small sequence operations the Python list methods stand for. */
module Sequences {

  /** No element occurs twice. */
  predicate NoDuplicates<T(==)>(s: seq<T>)
  {
    forall i, j :: 0 <= i < j < |s| ==> s[i] != s[j]
  }

  /** Position of the first occurrence of `x` in `s`. */
  function IndexOf<T(==)>(s: seq<T>, x: T): (i: nat)
    requires x in s
    ensures i < |s| && s[i] == x && x !in s[..i]
  {
    if s[0] == x then 0
    else
      var j := IndexOf(s[1..], x);
      assert s[..j + 1] == [s[0]] + s[1..][..j];
      j + 1
  }

  /**
   `list.remove(x)`: drops the first occurrence of `x`. Callers guarantee `x` occurs, as the
   source raises otherwise.
   */
  function RemoveFirst<T(==)>(s: seq<T>, x: T): (r: seq<T>)
    requires x in s
    ensures |r| == |s| - 1
    ensures multiset(r) == multiset(s) - multiset{x}
    ensures r == s[..IndexOf(s, x)] + s[IndexOf(s, x) + 1..]
  {
    var i := IndexOf(s, x);
    assert s == s[..i] + [s[i]] + s[i + 1..];
    s[..i] + s[i + 1..]
  }

  /** The elements of `s` different from `x`, in order (a list comprehension with `!=`). */
  function Without<T(==,!new)>(s: seq<T>, x: T): (r: seq<T>)
    ensures forall y :: y in r <==> y in s && y != x
    ensures |r| <= |s|
  {
    if |s| == 0 then []
    else if s[0] == x then Without(s[1..], x)
    else [s[0]] + Without(s[1..], x)
  }

  /** The first occurrence of an element of a prefix lies in that prefix. */
  lemma IndexOfPrefix<T>(s: seq<T>, n: nat, x: T)
    requires n <= |s| && x in s[..n]
    ensures IndexOf(s, x) == IndexOf(s[..n], x)
  {
    var j := IndexOf(s[..n], x);
    assert s[..n][..j] == s[..j];
  }

  /**
   Keeps the first occurrence of every element, in order of first occurrence (the key order of
   a dict built from `s`).
   */
  function Dedup<T(==,!new)>(s: seq<T>): (r: seq<T>)
    ensures forall y :: y in r <==> y in s
    ensures NoDuplicates(r)
    ensures forall i, j :: 0 <= i < j < |r| ==> IndexOf(s, r[i]) < IndexOf(s, r[j])
  {
    if |s| == 0 then []
    else
      var n := |s| - 1;
      var rest := Dedup(s[..n]);
      assert forall y :: y in rest ==> IndexOf(s, y) == IndexOf(s[..n], y) < n by {
        forall y | y in rest
          ensures IndexOf(s, y) == IndexOf(s[..n], y) < n
        {
          IndexOfPrefix(s, n, y);
        }
      }
      if s[n] in rest then rest
      else
        assert IndexOf(s, s[n]) == n;
        rest + [s[n]]
  }
}
