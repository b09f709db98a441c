/** The array combinators the source uses (`filter`, `some`), defined once. */
module Seqs {

  /** `s.filter(p)`: the elements of `s` that satisfy `p`, in their order. */
  function Filter<T(==,!new)>(p: T -> bool, s: seq<T>): (r: seq<T>)
    ensures |r| <= |s|
    ensures forall x :: x in r <==> x in s && p(x)
  {
    if s == [] then [] else (if p(s[0]) then [s[0]] else []) + Filter(p, s[1..])
  }

  /** Filtering distributes over concatenation, so the kept elements keep their order. */
  lemma {:induction false} FilterConcat<T(!new)>(p: T -> bool, a: seq<T>, b: seq<T>)
    ensures Filter(p, a + b) == Filter(p, a) + Filter(p, b)
  {
    if a == [] {
      assert a + b == b;
    } else {
      assert (a + b)[1..] == a[1..] + b;
      FilterConcat(p, a[1..], b);
    }
  }

  /** Filtering twice with the same predicate is filtering once. */
  lemma {:induction false} FilterIdempotent<T(!new)>(p: T -> bool, s: seq<T>)
    ensures Filter(p, Filter(p, s)) == Filter(p, s)
  {
    if s != [] {
      FilterIdempotent(p, s[1..]);
      var t := Filter(p, s);
      if p(s[0]) {
        assert t == [s[0]] + Filter(p, s[1..]);
        assert t[0] == s[0] && t[1..] == Filter(p, s[1..]);
        assert Filter(p, t) == [t[0]] + Filter(p, t[1..]);
      } else {
        assert t == [] + Filter(p, s[1..]) == Filter(p, s[1..]);
      }
    }
  }

  /** The filter leaves `s` as it is exactly when every element passes. */
  lemma {:induction false} FilterUnchanged<T(!new)>(p: T -> bool, s: seq<T>)
    ensures Filter(p, s) == s <==> forall x :: x in s ==> p(x)
  {
    if s != [] {
      FilterUnchanged(p, s[1..]);
      if !p(s[0]) {
        assert |Filter(p, s)| < |s|;
      } else {
        assert s == [s[0]] + s[1..];
      }
    }
  }

  /** `s.some(p)`. */
  function Any<T>(p: T -> bool, s: seq<T>): (r: bool)
    ensures r <==> exists i :: 0 <= i < |s| && p(s[i])
  {
    if s == [] then false
    else if p(s[0]) then true
    else
      var rest := Any(p, s[1..]);
      assert forall i :: 1 <= i < |s| ==> s[i] == s[1..][i - 1];
      rest
  }

  /** Any position splits a sequence into what is before it, it, and what is after it. */
  lemma SplitAt<T>(s: seq<T>, i: nat)
    requires i < |s|
    ensures s == s[..i] + [s[i]] + s[i + 1..]
  {
  }
}
