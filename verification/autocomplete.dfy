/**
 Autocompletion on the simple prefix tree.

 Autocompletion descends along `prefix[..1]`, `prefix[..2]`, ..., `prefix`
 exactly as insertion does, and at the node it reaches collects (value, weight)
 pairs from the leaves beneath it: all of them, or a limited number of them,
 sorted by non-increasing weight.
 */
module Completion {
  import opened Sorting
  import opened PrefixTree
  import Insertion

  /** One completion: a stored value and its weight. */
  type Match<V> = (V, real)

  function MatchWeight<V>(m: Match<V>): real {
    m.1
  }

  function Min(a: nat, b: nat): nat {
    if a <= b then a else b
  }

  // ---------------------------------------------------------------------------
  // Reference definitions
  // ---------------------------------------------------------------------------

  /** Whether the leaf `m` (a value with its weight) sits at or below `t`. */
  ghost predicate Holds<V, U>(t: Tree<V, U>, m: Match<V>)
    decreases t
  {
    match t
    case Leaf(v, w) => m == (v, w)
    case Internal(_, _, _, _, subs) => exists c :: c in subs && Holds(c, m)
  }

  /** The sum of the weights of some completions. */
  function TotalWeight<V>(ms: seq<Match<V>>): real {
    if ms == [] then 0.0 else ms[0].1 + TotalWeight(ms[1..])
  }

  /** The first `limit` completions of `ms`, or all of them when there is no limit. */
  function Take<V>(ms: seq<Match<V>>, limit: Option<nat>): (r: seq<Match<V>>)
    ensures limit.None? ==> r == ms
    ensures limit.Some? ==> |r| == Min(limit.value, |ms|) && r == ms[..|r|]
  {
    match limit
    case None => ms
    case Some(n) => ms[..Min(n, |ms|)]
  }

  // ---------------------------------------------------------------------------
  // Collecting completions
  // ---------------------------------------------------------------------------

  /**
   Every (value, weight) pair of the leaves at or below `t`, subtree by
   subtree, in the order the subtrees are stored. A leaf contributes itself only
   when it is a leaf in the program's sense (positive weight); an internal node
   contributes what its subtrees contribute.
   */
  function NoLimitItems<V, U>(t: Tree<V, U>): (r: seq<Match<V>>)
    ensures forall j :: 0 <= j < |r| ==> r[j].1 > 0.0
    ensures |r| <= CountLeaves(t)
    ensures forall m | m in r :: Holds(t, m)
    decreases t
  {
    match t
    case Leaf(v, w) => if IsLeaf(t) then [(v, w)] else []
    case Internal(_, _, _, _, subs) => ItemsAll(subs)
  }

  function ItemsAll<V, U>(ts: seq<Tree<V, U>>): (r: seq<Match<V>>)
    ensures forall j :: 0 <= j < |r| ==> r[j].1 > 0.0
    ensures |r| <= CountAll(ts)
    ensures forall m | m in r :: exists c :: c in ts && Holds(c, m)
    decreases ts
  {
    if ts == [] then []
    else
      var a, b := NoLimitItems(ts[0]), ItemsAll(ts[1..]);
      assert forall j :: |a| <= j < |a + b| ==> (a + b)[j] == b[j - |a|];
      assert ts[0] in ts && forall c | c in ts[1..] :: c in ts;
      a + b
  }

  /** Taking a prefix of a concatenation. */
  lemma TakeAppend<T>(a: seq<T>, b: seq<T>, n: nat)
    ensures n <= |a| ==> (a + b)[..Min(n, |a + b|)] == a[..n]
    ensures n > |a| ==> (a + b)[..Min(n, |a + b|)] == a + b[..Min(n - |a|, |b|)]
  {
    if n <= |a| {
      assert (a + b)[..n] == a[..n];
    } else {
      assert (a + b)[..Min(n, |a + b|)] == a + b[..Min(n - |a|, |b|)];
    }
  }

  /**
   At most `limit` pairs from the leaves at or below `t`: none when the budget
   is used up, the leaf itself, or what each subtree yields in turn out of what
   remains of the budget. The result is exactly the first `limit` pairs that
   `NoLimitItems` lists; it is not, in general, the `limit` heaviest ones
   (see `LimitedNotHeaviest`).
   */
  function LimitedItems<V, U>(t: Tree<V, U>, limit: nat): (r: seq<Match<V>>)
    ensures r == NoLimitItems(t)[..Min(limit, |NoLimitItems(t)|)]
    decreases t
  {
    if limit == 0 then []
    else
      match t
      case Leaf(v, w) => if IsLeaf(t) then [(v, w)] else []
      case Internal(_, _, _, _, subs) => LimitedAll(subs, limit)
  }

  function LimitedAll<V, U>(ts: seq<Tree<V, U>>, limit: nat): (r: seq<Match<V>>)
    ensures r == ItemsAll(ts)[..Min(limit, |ItemsAll(ts)|)]
    decreases ts
  {
    if ts == [] then []
    else
      var a := LimitedItems(ts[0], limit);
      var rest := LimitedAll(ts[1..], limit - |a|);
      TakeAppend(NoLimitItems(ts[0]), ItemsAll(ts[1..]), limit);
      a + rest
  }

  // ---------------------------------------------------------------------------
  // What a valid tree yields
  // ---------------------------------------------------------------------------

  lemma {:induction false} TotalWeightAppend<V>(a: seq<Match<V>>, b: seq<Match<V>>)
    ensures TotalWeight(a + b) == TotalWeight(a) + TotalWeight(b)
  {
    if a == [] {
      assert a + b == b;
    } else {
      assert (a + b)[1..] == a[1..] + b;
      TotalWeightAppend(a[1..], b);
    }
  }

  /**
   Below a valid subtree, the collected pairs are exactly its leaves: one pair
   per leaf, carrying the leaves' total weight.
   */
  lemma {:induction false} ItemsOfValid<V, U>(wt: WeightType, t: Tree<V, U>, parent: seq<U>)
    requires Valid(wt, t, parent)
    ensures |NoLimitItems(t)| == CountLeaves(t)
    ensures TotalWeight(NoLimitItems(t)) == SumLeaves(t)
    ensures forall m :: m in NoLimitItems(t) <==> Holds(t, m)
    decreases t, 1
  {
    match t
    case Leaf(v, w) =>
    case Internal(p, _, _, _, subs) =>
      ItemsOfAll(wt, subs, p);
  }

  lemma {:induction false} ItemsOfAll<V, U>(wt: WeightType, ts: seq<Tree<V, U>>, parent: seq<U>)
    requires forall c | c in ts :: Valid(wt, c, parent)
    ensures |ItemsAll(ts)| == CountAll(ts)
    ensures TotalWeight(ItemsAll(ts)) == SumAll(ts)
    ensures forall m :: m in ItemsAll(ts) <==> exists c :: c in ts && Holds(c, m)
    decreases ts, 0
  {
    if ts != [] {
      var a, b := NoLimitItems(ts[0]), ItemsAll(ts[1..]);
      assert ts[0] in ts;
      ItemsOfValid(wt, ts[0], parent);
      assert forall c | c in ts[1..] :: c in ts;
      ItemsOfAll(wt, ts[1..], parent);
      TotalWeightAppend(a, b);
      forall m
        ensures m in ItemsAll(ts) <==> exists c :: c in ts && Holds(c, m)
      {
        if c :| c in ts && Holds(c, m) {
          if c != ts[0] {
            assert c in ts[1..];
          }
        }
      }
    }
  }

  /**
   At a consistent node, the collected pairs are exactly the leaves below it,
   as many as its leaf count, with its recorded weight sum.
   */
  lemma ItemsOfNode<V, U>(wt: WeightType, t: Tree<V, U>)
    requires Consistent(wt, t)
    ensures |NoLimitItems(t)| == t.leafCount
    ensures TotalWeight(NoLimitItems(t)) == t.sumWeight
    ensures forall m :: m in NoLimitItems(t) <==> Holds(t, m)
  {
    ItemsOfAll(wt, t.subtrees, t.prefix);
  }

  /** Every node a descent reaches from a consistent node is consistent. */
  lemma {:induction false} LocateConsistent<V, U>(wt: WeightType, t: Tree<V, U>, prefix: seq<U>, i: nat)
    requires Consistent(wt, t)
    ensures Locate(t, prefix, i).Some? ==> Consistent(wt, Locate(t, prefix, i).value)
    decreases |prefix| - i + 1
  {
    if i <= |prefix| {
      var k := FindPrefix(t.subtrees, prefix[..i]);
      if k < |t.subtrees| {
        assert t.subtrees[k] in t.subtrees;
        LocateConsistent(wt, t.subtrees[k], prefix, i + 1);
      }
    }
  }

  // ---------------------------------------------------------------------------
  // Autocompletion
  // ---------------------------------------------------------------------------

  /**
   Completions of `prefix`, from depth `i` of the descent on: nothing when some
   prefix on the way is missing; otherwise the pairs collected at the node
   reached, all of them or the first `limit`, sorted by non-increasing weight.
   */
  function AutocompleteFrom<V, U(==)>(t: Tree<V, U>, prefix: seq<U>, i: nat, limit: Option<nat>)
    : (r: seq<Match<V>>)
    requires t.Internal?
    ensures NonIncreasing(r, MatchWeight)
    ensures Locate(t, prefix, i).None? ==> r == []
    ensures Locate(t, prefix, i).Some? ==>
      multiset(r) == multiset(Take(NoLimitItems(Locate(t, prefix, i).value), limit))
    ensures limit.Some? ==> |r| <= limit.value
    decreases |prefix| - i + 1
  {
    if i <= |prefix| then
      var k := FindPrefix(t.subtrees, prefix[..i]);
      if k < |t.subtrees| then AutocompleteFrom(t.subtrees[k], prefix, i + 1, limit) else []
    else
      match limit
      case None => SortDesc(NoLimitItems(t), MatchWeight)
      case Some(n) =>
        var items := LimitedItems(t, n);
        var sorted := SortDesc(items, MatchWeight);
        MultisetSize(sorted, items);
        sorted
  }

  /**
   Up to `limit` completions of `prefix` (every one when there is no limit),
   heaviest first.
   */
  function Autocomplete<V, U(==)>(t: Tree<V, U>, prefix: seq<U>, limit: Option<nat>): (r: seq<Match<V>>)
    requires t.Internal?
    requires limit.Some? ==> limit.value > 0
    ensures NonIncreasing(r, MatchWeight)
    ensures limit.Some? ==> |r| <= limit.value
    ensures Locate(t, prefix, 1).None? ==> r == []
    ensures Locate(t, prefix, 1).Some? ==>
      multiset(r) == multiset(Take(NoLimitItems(Locate(t, prefix, 1).value), limit))
  {
    AutocompleteFrom(t, prefix, 1, limit)
  }

  /** A multiset bounds the length of any sequence it came from. */
  lemma MultisetSize<T>(a: seq<T>, b: seq<T>)
    requires multiset(a) == multiset(b)
    ensures |a| == |b|
  {
    assert |a| == |multiset(a)| == |multiset(b)| == |b|;
  }

  /**
   Without a limit, the completions of a prefix that a valid tree stores are
   exactly the leaves below the node the prefix leads to, one per leaf.
   */
  lemma AutocompleteAll<V, U>(wt: WeightType, t: Tree<V, U>, prefix: seq<U>)
    requires ValidRoot(wt, t)
    ensures var r := Autocomplete(t, prefix, None);
      match Locate(t, prefix, 1)
      case None => r == []
      case Some(n) => |r| == n.leafCount && forall m :: m in r <==> Holds(n, m)
  {
    var r := Autocomplete(t, prefix, None);
    LocateConsistent(wt, t, prefix, 1);
    if Locate(t, prefix, 1).Some? {
      var n := Locate(t, prefix, 1).value;
      ItemsOfNode(wt, n);
      MultisetSize(r, NoLimitItems(n));
      forall m
        ensures m in r <==> Holds(n, m)
      {
        assert m in r <==> m in multiset(r);
        assert m in NoLimitItems(n) <==> m in multiset(NoLimitItems(n));
      }
    }
  }

  /**
   With a limit, the completions are the first `limit` of those without one,
   as a multiset; and a limit no smaller than the number of matches changes
   nothing at all.
   */
  lemma AutocompleteLimited<V, U>(t: Tree<V, U>, prefix: seq<U>, limit: nat)
    requires t.Internal? && limit > 0
    ensures var all := Autocomplete(t, prefix, None);
      var some := Autocomplete(t, prefix, Some(limit));
      && |some| == Min(limit, |all|)
      && multiset(some) <= multiset(all)
      && (limit >= |all| ==> some == all)
  {
    var all := Autocomplete(t, prefix, None);
    var some := Autocomplete(t, prefix, Some(limit));
    if Locate(t, prefix, 1).Some? {
      var items := NoLimitItems(Locate(t, prefix, 1).value);
      var taken := Take(items, Some(limit));
      MultisetSize(all, items);
      MultisetSize(some, taken);
      PrefixSubMultiset(items, |taken|);
      if limit >= |all| {
        SameSort(t, prefix, 1, limit);
      }
    }
  }

  /** The multiset of a prefix is part of the multiset of the whole. */
  lemma PrefixSubMultiset<T>(s: seq<T>, n: nat)
    requires n <= |s|
    ensures multiset(s[..n]) <= multiset(s)
  {
    assert s == s[..n] + s[n..];
    assert multiset(s) == multiset(s[..n]) + multiset(s[n..]);
  }

  /**
   A limit no smaller than the number of matches makes the limited descent
   return the very same list as the unlimited one.
   */
  lemma {:induction false} SameSort<V, U>(t: Tree<V, U>, prefix: seq<U>, i: nat, limit: nat)
    requires t.Internal?
    requires Locate(t, prefix, i).Some? ==> limit >= |NoLimitItems(Locate(t, prefix, i).value)|
    ensures AutocompleteFrom(t, prefix, i, Some(limit)) == AutocompleteFrom(t, prefix, i, None)
    decreases |prefix| - i + 1
  {
    if i <= |prefix| {
      var k := FindPrefix(t.subtrees, prefix[..i]);
      if k < |t.subtrees| {
        SameSort(t.subtrees[k], prefix, i + 1, limit);
      }
    } else {
      assert LimitedItems(t, limit) == NoLimitItems(t);
    }
  }

  // ---------------------------------------------------------------------------
  // Autocompletion after insertion
  // ---------------------------------------------------------------------------

  /** Every leaf below a node the descent reaches is a leaf below the node it started from. */
  lemma {:induction false} LocateHolds<V, U>(t: Tree<V, U>, q: seq<U>, i: nat, m: Match<V>)
    requires t.Internal?
    ensures Locate(t, q, i).Some? && Holds(Locate(t, q, i).value, m) ==> Holds(t, m)
    decreases |q| - i + 1
  {
    if i <= |q| {
      var k := FindPrefix(t.subtrees, q[..i]);
      if k < |t.subtrees| {
        var c := t.subtrees[k];
        LocateHolds(c, q, i + 1, m);
        assert c in t.subtrees;
      }
    }
  }

  /**
   A descent that succeeds along `q` also succeeds along every prefix `p` of
   `q`, and reaches a node with every leaf the longer descent reaches below it.
   */
  lemma {:induction false} LocateAncestor<V, U>(t: Tree<V, U>, p: seq<U>, q: seq<U>, i: nat, m: Match<V>)
    requires t.Internal?
    ensures |p| <= |q| && q[..|p|] == p && Locate(t, q, i).Some? ==>
      && Locate(t, p, i).Some?
      && (Holds(Locate(t, q, i).value, m) ==> Holds(Locate(t, p, i).value, m))
    decreases |q| - i + 1
  {
    if |p| <= |q| && q[..|p|] == p && Locate(t, q, i).Some? {
      if i <= |p| {
        assert p[..i] == q[..i];
        var k := FindPrefix(t.subtrees, q[..i]);
        LocateAncestor(t.subtrees[k], p, q, i + 1, m);
      } else {
        LocateHolds(t, q, i, m);
      }
    }
  }

  /**
   A value stored under `q` is among the completions of every prefix `p` of
   `q` (`q` itself included), with its stored weight.
   */
  lemma LookupCompletes<V, U>(wt: WeightType, t: Tree<V, U>, value: V, q: seq<U>, p: seq<U>)
    requires ValidRoot(wt, t)
    ensures |p| <= |q| && q[..|p|] == p && Lookup(t, value, q, 1).Some? ==>
      (value, Lookup(t, value, q, 1).value) in Autocomplete(t, p, None)
  {
    if |p| <= |q| && q[..|p|] == p && Lookup(t, value, q, 1).Some? {
      var n := Locate(t, q, 1).value;
      var k := FindLeaf(n.subtrees, value);
      var m := (value, n.subtrees[k].weight);
      assert n.subtrees[k] in n.subtrees;
      assert Holds(n.subtrees[k], m);
      LocateAncestor(t, p, q, 1, m);
      AutocompleteAll(wt, t, p);
    }
  }

  /**
   After inserting `value` with weight `w` under `prefix`, the descent along
   every prefix `p` of `prefix` succeeds, and completing `p` offers `value` with
   its accumulated weight.
   */
  lemma InsertCompletes<V(!new), U(!new)>(wt: WeightType, t: Tree<V, U>, value: V, w: real, prefix: seq<U>, p: seq<U>)
    requires ValidRoot(wt, t) && w > 0.0
    ensures var r := Insertion.Insert(wt, t, value, w, prefix);
      |p| <= |prefix| && prefix[..|p|] == p ==>
        && Locate(r, p, 1).Some?
        && (value, Lookup(t, value, prefix, 1).GetOr(0.0) + w) in Autocomplete(r, p, None)
  {
    var r := Insertion.Insert(wt, t, value, w, prefix);
    LookupCompletes(wt, r, value, prefix, p);
    if |p| <= |prefix| && prefix[..|p|] == p {
      LocateAncestor(r, p, prefix, 1, (value, 0.0));
    }
  }

  // ---------------------------------------------------------------------------
  // The limited collection is not a top-k selection
  // ---------------------------------------------------------------------------

  /** The subtree `[1]` of the example: two leaves of weights 6 and 4, aggregate 10. */
  function ExampleBranch(): Tree<int, int> {
    Internal([1], 10.0, 2, 10.0, [Leaf(1, 6.0), Leaf(2, 4.0)])
  }

  /** The example root: the subtree `[1]`, then a leaf of weight 5 inserted under the empty prefix. */
  function ExampleTree(): Tree<int, int> {
    Internal([], 15.0, 3, 15.0, [ExampleBranch(), Leaf(3, 5.0)])
  }

  /** The example's subtree `[1]` is a valid child of the root. */
  lemma ExampleBranchValid()
    ensures Valid(Sum, ExampleBranch(), [])
    ensures CountLeaves(ExampleBranch()) == 2 && SumLeaves(ExampleBranch()) == 10.0
  {
    var a := ExampleBranch();
    assert CountAll(a.subtrees) == 2 && SumAll(a.subtrees) == 10.0 by {
      assert a.subtrees[1..] == [Leaf(2, 4.0)];
    }
    assert Consistent(Sum, a);
  }

  /** The example tree satisfies every invariant, with summed weights. */
  lemma ExampleValid()
    ensures ValidRoot(Sum, ExampleTree())
  {
    var t := ExampleTree();
    ExampleBranchValid();
    assert CountAll(t.subtrees) == 3 && SumAll(t.subtrees) == 15.0 by {
      assert t.subtrees[1..] == [Leaf(3, 5.0)];
      assert CountAll(t.subtrees[1..]) == 1 && SumAll(t.subtrees[1..]) == 5.0;
    }
  }

  /** What a node with two subtrees collects: the first one's pairs, then the second's. */
  lemma ItemsPair<V, U>(x: Tree<V, U>, y: Tree<V, U>)
    ensures ItemsAll([x, y]) == NoLimitItems(x) + NoLimitItems(y)
  {
    assert [x, y][1..] == [y] && [y][1..] == [];
  }

  /** The example's leaves in stored order: the subtree's two, then the root's own. */
  lemma ExampleItems()
    ensures NoLimitItems(ExampleTree()) == [(1, 6.0), (2, 4.0), (3, 5.0)]
  {
    var l1: Tree<int, int> := Leaf(1, 6.0);
    var l2: Tree<int, int> := Leaf(2, 4.0);
    var l3: Tree<int, int> := Leaf(3, 5.0);
    assert NoLimitItems(l1) == [(1, 6.0)] && NoLimitItems(l2) == [(2, 4.0)] && NoLimitItems(l3) == [(3, 5.0)];
    ItemsPair(l1, l2);
    assert NoLimitItems(ExampleBranch()) == [(1, 6.0), (2, 4.0)];
    ItemsPair(ExampleBranch(), l3);
  }

  lemma FirstTwo<T>(s: seq<T>, a: T, b: T, c: T)
    requires s == [a, b, c]
    ensures s[..Min(2, |s|)] == [a, b]
  {
  }

  /** Two elements of distinct keys have one descending order only. */
  lemma SortedPair<T>(s: seq<T>, a: T, b: T, key: T -> real)
    requires multiset(s) == multiset([a, b]) && NonIncreasing(s, key) && key(a) > key(b)
    ensures s == [a, b]
  {
    MultisetSize(s, [a, b]);
    assert s[0] in multiset(s) && s[1] in multiset(s);
  }

  /** With a limit of 2, completing the empty prefix of the example yields the weights 6 and 4. */
  lemma ExampleLimited()
    ensures Autocomplete(ExampleTree(), [], Some(2)) == [(1, 6.0), (2, 4.0)]
  {
    var t := ExampleTree();
    var first: seq<Match<int>> := [(1, 6.0), (2, 4.0)];
    ExampleItems();
    FirstTwo(NoLimitItems(t), (1, 6.0), (2, 4.0), (3, 5.0));
    assert Locate(t, [], 1) == Some(t);
    SortedPair(Autocomplete(t, [], Some(2)), (1, 6.0), (2, 4.0), MatchWeight);
  }

  /** Without a limit, the leaf of weight 5 is among the example's completions. */
  lemma ExampleUnlimited()
    ensures (3, 5.0) in Autocomplete(ExampleTree(), [], None)
  {
    var t := ExampleTree();
    ExampleItems();
    assert Locate(t, [], 1) == Some(t);
    assert (3, 5.0) in multiset(NoLimitItems(t));
  }

  /**
   The limited collection does not pick the heaviest completions: with a limit
   of 2 the example yields the leaves of weights 6 and 4, because the subtree
   `[1]` (aggregate 10) is visited first and fills the budget, although a leaf
   of weight 5 is among the completions.
   */
  lemma LimitedNotHeaviest()
    ensures ValidRoot(Sum, ExampleTree())
    ensures Autocomplete(ExampleTree(), [], Some(2)) == [(1, 6.0), (2, 4.0)]
    ensures (3, 5.0) in Autocomplete(ExampleTree(), [], None)
  {
    ExampleValid();
    ExampleLimited();
    ExampleUnlimited();
  }
}
