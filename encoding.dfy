/**
  Categorical encoding of raw identifiers, as `series.astype('category').cat.codes`
  does it: the categories are the distinct values in ascending order, and the code
  of a value is its position among the categories.
 */
module Encoding {

  ghost predicate StrictlyIncreasing(d: seq<int>) {
    forall i, j :: 0 <= i < j < |d| ==> d[i] < d[j]
  }

  /** Adds `x` to the ascending list of distinct values `d` (no change if present). */
  function Insert(x: int, d: seq<int>): (e: seq<int>)
    requires StrictlyIncreasing(d)
    ensures StrictlyIncreasing(e)
    ensures forall y :: y in e <==> y == x || y in d
  {
    if d == [] then [x]
    else if x < d[0] then [x] + d
    else if x == d[0] then d
    else
      var tail := Insert(x, d[1..]);
      ConsIncreasing(d[0], tail);
      [d[0]] + tail
  }

  lemma ConsIncreasing(x: int, d: seq<int>)
    requires StrictlyIncreasing(d) && forall y :: y in d ==> x < y
    ensures StrictlyIncreasing([x] + d)
  {
    var e := [x] + d;
    forall i, j | 0 <= i < j < |e| ensures e[i] < e[j] {
      assert e[j] == d[j - 1] && d[j - 1] in d;
      if i > 0 { assert e[i] == d[i - 1]; }
    }
  }

  /** The categories of `s`: its distinct values in ascending order. */
  function Categories(s: seq<int>): (d: seq<int>)
    ensures StrictlyIncreasing(d)
    ensures forall y :: y in d <==> y in s
  {
    if s == [] then [] else Insert(s[0], Categories(s[1..]))
  }

  /** Position of `x` in `d`. */
  function IndexOf(d: seq<int>, x: int): (i: nat)
    requires x in d
    ensures i < |d| && d[i] == x
  {
    if d[0] == x then 0 else 1 + IndexOf(d[1..], x)
  }

  /** The category code of every element of `s`. */
  function Codes(s: seq<int>): (c: seq<nat>)
    ensures |c| == |s|
    ensures forall i :: 0 <= i < |s| ==> c[i] < |Categories(s)| && Categories(s)[c[i]] == s[i]
  {
    var d := Categories(s);
    seq(|s|, i requires 0 <= i < |s| => IndexOf(d, s[i]))
  }

  /** Number of distinct values, as `nunique()`: none for an empty column, never more than its length. */
  function NUnique(c: seq<int>): (n: nat)
    ensures n <= |c|
    ensures n == 0 <==> c == []
  {
    DistinctAtMostLength(c);
    var values := set x | x in c;
    assert c != [] ==> c[0] in values && |values| > 0;
    assert c == [] ==> values == {};
    |values|
  }

  lemma {:induction false} DistinctAtMostLength(c: seq<int>)
    ensures |set x | x in c| <= |c|
  {
    if c != [] {
      DistinctAtMostLength(c[1..]);
      assert (set x | x in c) == {c[0]} + (set x | x in c[1..]);
    }
  }

  lemma IncreasingOrder(d: seq<int>, a: int, b: int)
    requires StrictlyIncreasing(d)
    requires 0 <= a < |d| && 0 <= b < |d|
    ensures d[a] < d[b] <==> a < b
    ensures d[a] == d[b] <==> a == b
  {
  }

  /** A list without repetitions has as many distinct values as elements. */
  lemma {:induction false} DistinctCount(d: seq<int>)
    requires StrictlyIncreasing(d)
    ensures NUnique(d) == |d|
  {
    if d != [] {
      DistinctCount(d[1..]);
      assert (set x | x in d) == {d[0]} + (set x | x in d[1..]);
      assert d[0] !in (set x | x in d[1..]);
    }
  }

  function Range(n: nat): (r: seq<int>)
    ensures |r| == n && forall i :: 0 <= i < n ==> r[i] == i
  {
    seq(n, i => i)
  }

  /**
    Two raw values get the same code exactly when they are equal, and a smaller code
    exactly when they are smaller: the codes follow the ascending order of the values.
   */
  lemma CodesPreserveOrder(s: seq<int>, i: int, j: int)
    requires 0 <= i < |s| && 0 <= j < |s|
    ensures Codes(s)[i] == Codes(s)[j] <==> s[i] == s[j]
    ensures Codes(s)[i] < Codes(s)[j] <==> s[i] < s[j]
  {
    IncreasingOrder(Categories(s), Codes(s)[i], Codes(s)[j]);
  }

  /** Every code in 0..k-1 is used, where k is the number of categories. */
  lemma CodesOnto(s: seq<int>)
    ensures forall code :: 0 <= code < |Categories(s)| ==> code in Codes(s)
  {
    var c, d := Codes(s), Categories(s);
    forall code | 0 <= code < |d|
      ensures code in c
    {
      assert d[code] in s;
      var i :| 0 <= i < |s| && s[i] == d[code];
      IncreasingOrder(d, c[i], code);
    }
  }

  /**
    The number of categories is the number of distinct raw values, and also the
    number of distinct codes.
   */
  lemma CategoryCount(s: seq<int>)
    ensures |Categories(s)| == NUnique(s)
    ensures |Categories(s)| == NUnique(Codes(s))
  {
    var c, d := Codes(s), Categories(s);
    DistinctCount(d);
    assert (set x | x in d) == (set x | x in s);
    var r := Range(|d|);
    DistinctCount(r);
    CodesOnto(s);
    forall x | x in c ensures x in r {
      var i :| 0 <= i < |c| && c[i] == x;
      assert r[x] == x;
    }
    forall x | x in r ensures x in c {
      var i :| 0 <= i < |r| && r[i] == x;
    }
    SameElementsSameCount(c, r);
  }

  lemma SameElementsSameCount(a: seq<int>, b: seq<int>)
    requires forall x :: x in a <==> x in b
    ensures NUnique(a) == NUnique(b)
  {
    var sa, sb := set x | x in a, set x | x in b;
    forall y ensures y in sa <==> y in sb {
      assert y in sa <==> y in a;
      assert y in sb <==> y in b;
    }
    assert sa == sb;
  }
}
