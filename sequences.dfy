/** Helpers on sequences shared by the solvers. */
module Sequences {
  /** Python's `list.index(x)` / `str.index(x)`: the first position of x. */
  function IndexOf<T(==)>(s: seq<T>, x: T): (i: nat)
    requires x in s
    ensures i < |s| && s[i] == x
    ensures forall k :: 0 <= k < i ==> s[k] != x
  {
    if s[0] == x then 0 else 1 + IndexOf(s[1..], x)
  }

  /** The first position of x in a + b: in a if x occurs there, and
      otherwise |a| past its first position in b. */
  lemma IndexOfAppend<T>(a: seq<T>, b: seq<T>, x: T)
    requires x in a + b
    ensures x in a ==> IndexOf(a + b, x) == IndexOf(a, x)
    ensures x !in a ==> x in b && IndexOf(a + b, x) == |a| + IndexOf(b, x)
  {
    var i := IndexOf(a + b, x);
    if x in a {
      var j := IndexOf(a, x);
      assert (a + b)[j] == x;
      assert (a + b)[i] == a[i];
    } else {
      assert forall k :: 0 <= k < |a| ==> (a + b)[k] == a[k];
      assert b[i - |a|] == x;
      var j := IndexOf(b, x);
      assert (a + b)[|a| + j] == x;
    }
  }

  /** Python's `count(x)` on a list, or on a string for a one-character x. */
  function Count<T(==)>(s: seq<T>, x: T): nat
  {
    if s == [] then 0
    else (if s[0] == x then 1 else 0) + Count(s[1..], x)
  }

  /** The count is at most the length, and zero exactly when x is absent. */
  lemma {:induction false} CountBounds<T>(s: seq<T>, x: T)
    ensures Count(s, x) <= |s|
    ensures Count(s, x) == 0 <==> x !in s
  {
    if s != [] {
      CountBounds(s[1..], x);
      assert s == [s[0]] + s[1..];
    }
  }

  lemma {:induction false} CountConcat<T>(a: seq<T>, b: seq<T>, x: T)
    ensures Count(a + b, x) == Count(a, x) + Count(b, x)
  {
    if a == [] {
      assert a + b == b;
    } else {
      assert a + b != [] && (a + b)[0] == a[0] && (a + b)[1..] == a[1..] + b;
      CountConcat(a[1..], b, x);
    }
  }

  lemma {:induction false} CountCons<T>(c: T, t: seq<T>, x: T)
    ensures Count([c] + t, x) == (if c == x then 1 else 0) + Count(t, x)
  {
    assert ([c] + t)[0] == c && ([c] + t)[1..] == t;
  }
}
