/**
 Stable insertion sorts by a real-valued key, and sequence reversal.

 The prefix tree orders things in two different ways, and both are modelled
 here exactly as the program's runtime library performs them:
 - a node's subtrees are sorted ASCENDING by weight with a stable sort and the
   resulting list is then reversed, so equal weights end up in the reverse of
   their original order (`SortSubtrees` in module PrefixTree);
 - autocomplete results are sorted with a stable DESCENDING sort, which keeps
   equal weights in their original order.
 */
module Sorting {

  /** Every earlier element has a key at least as large as every later one. */
  predicate NonIncreasing<T>(s: seq<T>, key: T -> real) {
    forall i, j :: 0 <= i < j < |s| ==> key(s[i]) >= key(s[j])
  }

  /** Every earlier element has a key no larger than every later one. */
  predicate NonDecreasing<T>(s: seq<T>, key: T -> real) {
    forall i, j :: 0 <= i < j < |s| ==> key(s[i]) <= key(s[j])
  }

  /** Inserts `x` into ascending `s` after every element whose key is not larger. */
  function InsertAsc<T>(s: seq<T>, x: T, key: T -> real): (r: seq<T>)
    requires NonDecreasing(s, key)
    ensures multiset(r) == multiset(s) + multiset{x}
    ensures NonDecreasing(r, key)
  {
    if s == [] then [x]
    else if key(s[0]) <= key(x) then
      var rest := InsertAsc(s[1..], x, key);
      assert s == [s[0]] + s[1..];
      LowerBound(s[1..], x, rest, key, key(s[0]));
      ConsAscending(s[0], rest, key);
      [s[0]] + rest
    else
      ConsAscending(x, s, key);
      [x] + s
  }

  /** Putting an element no larger than all of an ascending sequence in front keeps it ascending. */
  lemma ConsAscending<T>(y: T, s: seq<T>, key: T -> real)
    requires NonDecreasing(s, key)
    requires forall j :: 0 <= j < |s| ==> key(y) <= key(s[j])
    ensures NonDecreasing([y] + s, key)
  {
    var r := [y] + s;
    forall i, j | 0 <= i < j < |r|
      ensures key(r[i]) <= key(r[j])
    {
      assert r[j] == s[j - 1];
      if i > 0 {
        assert r[i] == s[i - 1];
      }
    }
  }

  /** A rearrangement of `s` plus `x` keeps a lower bound that `s` and `x` share. */
  lemma LowerBound<T>(s: seq<T>, x: T, r: seq<T>, key: T -> real, b: real)
    requires multiset(r) == multiset(s) + multiset{x}
    requires b <= key(x)
    requires forall i :: 0 <= i < |s| ==> b <= key(s[i])
    ensures forall j :: 0 <= j < |r| ==> b <= key(r[j])
  {
    forall j | 0 <= j < |r|
      ensures b <= key(r[j])
    {
      assert r[j] in multiset(r);
      if r[j] != x {
        assert r[j] in multiset(s);
      }
    }
  }

  /** Stable ascending sort: the elements of `s`, rearranged into non-decreasing key order. */
  function SortAsc<T>(s: seq<T>, key: T -> real): (r: seq<T>)
    ensures multiset(r) == multiset(s)
    ensures NonDecreasing(r, key)
  {
    if s == [] then []
    else
      assert s == s[..|s| - 1] + [s[|s| - 1]];
      InsertAsc(SortAsc(s[..|s| - 1], key), s[|s| - 1], key)
  }

  /** Inserts `x` into descending `s` after every element whose key is not smaller. */
  function InsertDesc<T>(s: seq<T>, x: T, key: T -> real): (r: seq<T>)
    requires NonIncreasing(s, key)
    ensures multiset(r) == multiset(s) + multiset{x}
    ensures NonIncreasing(r, key)
  {
    if s == [] then [x]
    else if key(s[0]) >= key(x) then
      var rest := InsertDesc(s[1..], x, key);
      assert s == [s[0]] + s[1..];
      UpperBound(s[1..], x, rest, key, key(s[0]));
      ConsDescending(s[0], rest, key);
      [s[0]] + rest
    else
      ConsDescending(x, s, key);
      [x] + s
  }

  /** Putting an element no smaller than all of a descending sequence in front keeps it descending. */
  lemma ConsDescending<T>(y: T, s: seq<T>, key: T -> real)
    requires NonIncreasing(s, key)
    requires forall j :: 0 <= j < |s| ==> key(s[j]) <= key(y)
    ensures NonIncreasing([y] + s, key)
  {
    var r := [y] + s;
    forall i, j | 0 <= i < j < |r|
      ensures key(r[i]) >= key(r[j])
    {
      assert r[j] == s[j - 1];
      if i > 0 {
        assert r[i] == s[i - 1];
      }
    }
  }

  /** A rearrangement of `s` plus `x` keeps an upper bound that `s` and `x` share. */
  lemma UpperBound<T>(s: seq<T>, x: T, r: seq<T>, key: T -> real, b: real)
    requires multiset(r) == multiset(s) + multiset{x}
    requires key(x) <= b
    requires forall i :: 0 <= i < |s| ==> key(s[i]) <= b
    ensures forall j :: 0 <= j < |r| ==> key(r[j]) <= b
  {
    forall j | 0 <= j < |r|
      ensures key(r[j]) <= b
    {
      assert r[j] in multiset(r);
      if r[j] != x {
        assert r[j] in multiset(s);
      }
    }
  }

  /** Stable descending sort: the elements of `s`, rearranged into non-increasing key order. */
  function SortDesc<T>(s: seq<T>, key: T -> real): (r: seq<T>)
    ensures multiset(r) == multiset(s)
    ensures NonIncreasing(r, key)
  {
    if s == [] then []
    else
      assert s == s[..|s| - 1] + [s[|s| - 1]];
      InsertDesc(SortDesc(s[..|s| - 1], key), s[|s| - 1], key)
  }

  /** The elements of `s` in the opposite order. */
  function Reverse<T>(s: seq<T>): (r: seq<T>)
    ensures |r| == |s|
    ensures forall i :: 0 <= i < |s| ==> r[i] == s[|s| - 1 - i]
  {
    if s == [] then [] else Reverse(s[1..]) + [s[0]]
  }

  /** Reversal only rearranges. */
  lemma {:induction false} ReversePermutes<T>(s: seq<T>)
    ensures multiset(Reverse(s)) == multiset(s)
  {
    if s != [] {
      ReversePermutes(s[1..]);
      assert s == [s[0]] + s[1..];
    }
  }

  /** Reversing an ascending sequence gives a descending one. */
  lemma ReverseOfAscending<T>(s: seq<T>, key: T -> real)
    requires NonDecreasing(s, key)
    ensures NonIncreasing(Reverse(s), key)
  {
    var r := Reverse(s);
    forall i, j | 0 <= i < j < |r|
      ensures key(r[i]) >= key(r[j])
    {
      assert r[i] == s[|s| - 1 - i] && r[j] == s[|s| - 1 - j];
    }
  }

  /** Sort ascending, then reverse: a descending rearrangement of `s`. */
  function SortThenReverse<T>(s: seq<T>, key: T -> real): (r: seq<T>)
    ensures multiset(r) == multiset(s)
    ensures NonIncreasing(r, key)
  {
    var asc := SortAsc(s, key);
    ReversePermutes(asc);
    ReverseOfAscending(asc, key);
    Reverse(asc)
  }
}
