/**
 Insertion into the simple prefix tree.

 Insertion walks `prefix[..1]`, `prefix[..2]`, ... down from the root, creating
 each missing internal node, and at the end either adds a new leaf or adds the
 weight to the leaf already holding the value. On the way back up every node on
 the path recomputes its bookkeeping and aggregate weight and re-sorts its
 subtrees.
 */
module Insertion {
  import opened Sorting
  import opened PrefixTree

  // ---------------------------------------------------------------------------
  // Leaf totals are additive and insensitive to order
  // ---------------------------------------------------------------------------

  lemma {:induction false} TotalsAppend<V, U>(a: seq<Tree<V, U>>, b: seq<Tree<V, U>>)
    ensures CountAll(a + b) == CountAll(a) + CountAll(b)
    ensures SumAll(a + b) == SumAll(a) + SumAll(b)
  {
    if a == [] {
      assert a + b == b;
    } else {
      assert (a + b)[0] == a[0];
      assert (a + b)[1..] == a[1..] + b;
      TotalsAppend(a[1..], b);
    }
  }

  lemma TotalsCons<V, U>(x: Tree<V, U>, s: seq<Tree<V, U>>)
    ensures CountAll([x] + s) == CountLeaves(x) + CountAll(s)
    ensures SumAll([x] + s) == SumLeaves(x) + SumAll(s)
  {
    assert ([x] + s)[1..] == s;
  }

  /** Removing one element of a sequence removes one occurrence from its multiset. */
  lemma MultisetRemoveAt<T>(b: seq<T>, k: nat)
    requires k < |b|
    ensures multiset(b[..k] + b[k + 1..]) == multiset(b) - multiset{b[k]}
  {
    assert b == b[..k] + [b[k]] + b[k + 1..];
    assert multiset(b) == multiset(b[..k]) + multiset{b[k]} + multiset(b[k + 1..]);
  }

  /** The totals of a list are those of one element plus those of the rest. */
  lemma TotalsRemoveAt<V, U>(b: seq<Tree<V, U>>, k: nat)
    requires k < |b|
    ensures CountAll(b) == CountLeaves(b[k]) + CountAll(b[..k] + b[k + 1..])
    ensures SumAll(b) == SumLeaves(b[k]) + SumAll(b[..k] + b[k + 1..])
  {
    assert b[..k] + b[k..] == b;
    TotalsAppend(b[..k], b[k..]);
    assert b[k..][0] == b[k] && b[k..][1..] == b[k + 1..];
    TotalsAppend(b[..k], b[k + 1..]);
  }

  /** Where the first element of `a` sits in a rearrangement `b` of it, and what is left. */
  lemma MatchHead<T>(a: seq<T>, b: seq<T>) returns (k: nat)
    requires multiset(a) == multiset(b) && a != []
    ensures k < |b| && b[k] == a[0]
    ensures multiset(a[1..]) == multiset(b[..k] + b[k + 1..])
  {
    assert a[0] in b by {
      assert a[0] in multiset(b);
    }
    k :| 0 <= k < |b| && b[k] == a[0];
    assert multiset(a[1..]) == multiset(a) - multiset{a[0]} by {
      assert a == [a[0]] + a[1..];
    }
    MultisetRemoveAt(b, k);
  }

  /** Rearranging subtrees changes neither their leaf count nor their weight total. */
  lemma {:induction false} TotalsPermutation<V, U>(a: seq<Tree<V, U>>, b: seq<Tree<V, U>>)
    requires multiset(a) == multiset(b)
    ensures CountAll(a) == CountAll(b) && SumAll(a) == SumAll(b)
    decreases |a|
  {
    if a == [] {
      assert |b| == |multiset(b)| == 0;
    } else {
      var k := MatchHead(a, b);
      TotalsPermutation(a[1..], b[..k] + b[k + 1..]);
      TotalsRemoveAt(b, k);
    }
  }

  lemma TotalsReplace<V, U>(s: seq<Tree<V, U>>, k: nat, c: Tree<V, U>)
    requires k < |s|
    ensures CountAll(s[k := c]) == CountAll(s) - CountLeaves(s[k]) + CountLeaves(c)
    ensures SumAll(s[k := c]) == SumAll(s) - SumLeaves(s[k]) + SumLeaves(c)
  {
    assert s == s[..k] + ([s[k]] + s[k + 1..]);
    assert s[k := c] == s[..k] + ([c] + s[k + 1..]);
    TotalsAppend(s[..k], [s[k]] + s[k + 1..]);
    TotalsAppend(s[..k], [c] + s[k + 1..]);
    TotalsCons(s[k], s[k + 1..]);
    TotalsCons(c, s[k + 1..]);
  }

  lemma TotalsSnoc<V, U>(s: seq<Tree<V, U>>, c: Tree<V, U>)
    ensures CountAll(s + [c]) == CountAll(s) + CountLeaves(c)
    ensures SumAll(s + [c]) == SumAll(s) + SumLeaves(c)
  {
    TotalsAppend(s, [c]);
    TotalsCons(c, []);
  }

  // ---------------------------------------------------------------------------
  // Distinct keys
  // ---------------------------------------------------------------------------

  lemma DistinctPermutation<V, U>(a: seq<Tree<V, U>>, b: seq<Tree<V, U>>)
    requires multiset(a) == multiset(b) && DistinctKeys(a)
    ensures DistinctKeys(b)
  {
    forall x, y | x in b && y in b && SameKey(x, y)
      ensures x == y && multiset(b)[x] == 1
    {
      assert x in multiset(b) && y in multiset(b);
    }
  }

  /** Overwriting one position trades one occurrence of the old element for the new one. */
  lemma MultisetReplace<T>(s: seq<T>, k: nat, c: T)
    requires k < |s|
    ensures multiset(s[k := c]) == multiset(s) - multiset{s[k]} + multiset{c}
  {
    MultisetRemoveAt(s, k);
    assert s[k := c] == s[..k] + [c] + s[k + 1..];
    assert multiset(s[k := c]) == multiset(s[..k] + s[k + 1..]) + multiset{c} by {
      assert multiset(s[..k] + [c] + s[k + 1..]) == multiset(s[..k]) + multiset{c} + multiset(s[k + 1..]);
    }
  }

  lemma DistinctReplace<V, U>(s: seq<Tree<V, U>>, k: nat, c: Tree<V, U>)
    requires DistinctKeys(s) && k < |s| && SameKey(s[k], c)
    ensures DistinctKeys(s[k := c])
  {
    var prev := s[k];
    var s' := s[k := c];
    if c != prev {
      assert prev in s;
      assert c !in s;
      MultisetReplace(s, k, c);
      forall x, y | x in s' && y in s' && SameKey(x, y)
        ensures x == y && multiset(s')[x] == 1
      {
        assert x in multiset(s') && y in multiset(s');
        if x != c {
          assert x in s && x != prev;
        }
        if y != c {
          assert y in s && y != prev;
        }
      }
    } else {
      assert s' == s;
    }
  }

  lemma DistinctSnoc<V, U>(s: seq<Tree<V, U>>, c: Tree<V, U>)
    requires DistinctKeys(s)
    requires forall x | x in s :: !SameKey(x, c)
    ensures DistinctKeys(s + [c])
  {
    var s' := s + [c];
    assert multiset(s') == multiset(s) + multiset{c};
    forall x, y | x in s' && y in s' && SameKey(x, y)
      ensures x == y && multiset(s')[x] == 1
    {
      assert x in multiset(s') && y in multiset(s');
      if c in s {
        assert SameKey(c, c);
      }
    }
  }

  /** With distinct keys, the first internal subtree with a prefix is the only one. */
  lemma FindPrefixUnique<V, U>(ts: seq<Tree<V, U>>, p: seq<U>, x: Tree<V, U>)
    requires DistinctKeys(ts) && x in ts && HasPrefix(x, p)
    ensures FindPrefix(ts, p) < |ts| && ts[FindPrefix(ts, p)] == x
  {
    var k := FindPrefix(ts, p);
    var j :| 0 <= j < |ts| && ts[j] == x;
    assert k <= j;
    assert SameKey(ts[k], x);
  }

  /** With distinct keys, the first leaf holding a value is the only one. */
  lemma FindLeafUnique<V, U>(ts: seq<Tree<V, U>>, v: V, x: Tree<V, U>)
    requires DistinctKeys(ts) && x in ts && HoldsValue(x, v)
    ensures FindLeaf(ts, v) < |ts| && ts[FindLeaf(ts, v)] == x
  {
    var k := FindLeaf(ts, v);
    var j :| 0 <= j < |ts| && ts[j] == x;
    assert k <= j;
    assert SameKey(ts[k], x);
  }

  // ---------------------------------------------------------------------------
  // Lookups see subtrees, not their order
  // ---------------------------------------------------------------------------

  /** One level of the descent a lookup performs. */
  lemma LookupStep<V, U>(t: Tree<V, U>, value: V, prefix: seq<U>, i: nat)
    requires t.Internal? && i <= |prefix|
    ensures var k := FindPrefix(t.subtrees, prefix[..i]);
      Lookup(t, value, prefix, i)
        == if k < |t.subtrees| then Lookup(t.subtrees[k], value, prefix, i + 1) else None
  {
  }

  /** A node without subtrees stores nothing. */
  lemma LookupEmpty<V, U>(t: Tree<V, U>, value: V, prefix: seq<U>, i: nat)
    requires t.Internal? && t.subtrees == []
    ensures Lookup(t, value, prefix, i) == None
  {
  }

  /** Rearranging distinct-keyed subtrees does not change which one a prefix finds. */
  lemma FindPrefixPermutation<V, U>(a: seq<Tree<V, U>>, b: seq<Tree<V, U>>, q: seq<U>)
    requires multiset(a) == multiset(b) && DistinctKeys(a)
    ensures (FindPrefix(a, q) < |a|) == (FindPrefix(b, q) < |b|)
    ensures FindPrefix(a, q) < |a| ==> a[FindPrefix(a, q)] == b[FindPrefix(b, q)]
  {
    DistinctPermutation(a, b);
    var k1, k2 := FindPrefix(a, q), FindPrefix(b, q);
    if k1 < |a| {
      assert a[k1] in multiset(b);
      FindPrefixUnique(b, q, a[k1]);
    }
    if k2 < |b| {
      assert b[k2] in multiset(a);
      FindPrefixUnique(a, q, b[k2]);
    }
  }

  /** Rearranging distinct-keyed subtrees does not change which leaf a value finds. */
  lemma FindLeafPermutation<V, U>(a: seq<Tree<V, U>>, b: seq<Tree<V, U>>, v: V)
    requires multiset(a) == multiset(b) && DistinctKeys(a)
    ensures (FindLeaf(a, v) < |a|) == (FindLeaf(b, v) < |b|)
    ensures FindLeaf(a, v) < |a| ==> a[FindLeaf(a, v)] == b[FindLeaf(b, v)]
  {
    DistinctPermutation(a, b);
    var k1, k2 := FindLeaf(a, v), FindLeaf(b, v);
    if k1 < |a| {
      assert a[k1] in multiset(b);
      FindLeafUnique(b, v, a[k1]);
    }
    if k2 < |b| {
      assert b[k2] in multiset(a);
      FindLeafUnique(a, v, b[k2]);
    }
  }

  /** Two nodes with the same distinct-keyed subtrees, in any order, store the same weights. */
  lemma LookupPermutation<V, U>(t1: Tree<V, U>, t2: Tree<V, U>, value: V, prefix: seq<U>, i: nat)
    requires t1.Internal? && t2.Internal?
    requires multiset(t1.subtrees) == multiset(t2.subtrees) && DistinctKeys(t1.subtrees)
    ensures Lookup(t1, value, prefix, i) == Lookup(t2, value, prefix, i)
  {
    if i <= |prefix| {
      LookupStep(t1, value, prefix, i);
      LookupStep(t2, value, prefix, i);
      FindPrefixPermutation(t1.subtrees, t2.subtrees, prefix[..i]);
    } else {
      FindLeafPermutation(t1.subtrees, t2.subtrees, value);
    }
  }

  /** Replacing the subtree a search finds by one with the same key keeps the search's answer. */
  lemma FindReplace<V, U>(s: seq<Tree<V, U>>, k: nat, x: Tree<V, U>, q: seq<U>, v: V)
    requires k < |s| && SameKey(s[k], x)
    ensures FindPrefix(s, q) == k ==> FindPrefix(s[k := x], q) == k
    ensures FindLeaf(s, v) == k ==> FindLeaf(s[k := x], v) == k
  {
    var s' := s[k := x];
    if FindPrefix(s, q) == k {
      assert HasPrefix(s'[k], q);
      assert forall j :: 0 <= j < k ==> s'[j] == s[j];
    }
    if FindLeaf(s, v) == k {
      assert HoldsValue(s'[k], v);
      assert forall j :: 0 <= j < k ==> s'[j] == s[j];
    }
  }

  /** A search that found nothing finds a subtree appended with the searched key. */
  lemma FindSnoc<V, U>(s: seq<Tree<V, U>>, x: Tree<V, U>, q: seq<U>, v: V)
    ensures FindPrefix(s, q) == |s| && HasPrefix(x, q) ==> FindPrefix(s + [x], q) == |s|
    ensures FindLeaf(s, v) == |s| && HoldsValue(x, v) ==> FindLeaf(s + [x], v) == |s|
  {
    var s' := s + [x];
    assert forall j :: 0 <= j < |s| ==> s'[j] == s[j];
    assert s'[|s|] == x;
  }

  /** Two lists whose subtrees agree on holding prefix `q` (the longer one only adding others) agree on its search. */
  lemma FindPrefixAgree<V, U>(a: seq<Tree<V, U>>, b: seq<Tree<V, U>>, q: seq<U>)
    requires |a| <= |b|
    requires forall j :: 0 <= j < |a| ==> (HasPrefix(a[j], q) <==> HasPrefix(b[j], q))
    requires forall j :: |a| <= j < |b| ==> !HasPrefix(b[j], q)
    ensures FindPrefix(a, q) < |a| ==> FindPrefix(b, q) == FindPrefix(a, q)
    ensures FindPrefix(a, q) == |a| ==> FindPrefix(b, q) == |b|
  {
    var ka, kb := FindPrefix(a, q), FindPrefix(b, q);
    if kb < |b| {
      assert HasPrefix(b[kb], q);
      assert kb < |a| && HasPrefix(a[kb], q);
    }
    if ka < |a| {
      assert HasPrefix(b[ka], q);
    }
  }

  /** Two lists whose subtrees agree on holding value `v` (the longer one only adding others) agree on its search. */
  lemma FindLeafAgree<V, U>(a: seq<Tree<V, U>>, b: seq<Tree<V, U>>, v: V)
    requires |a| <= |b|
    requires forall j :: 0 <= j < |a| ==> (HoldsValue(a[j], v) <==> HoldsValue(b[j], v))
    requires forall j :: |a| <= j < |b| ==> !HoldsValue(b[j], v)
    ensures FindLeaf(a, v) < |a| ==> FindLeaf(b, v) == FindLeaf(a, v)
    ensures FindLeaf(a, v) == |a| ==> FindLeaf(b, v) == |b|
  {
    var ka, kb := FindLeaf(a, v), FindLeaf(b, v);
    if kb < |b| {
      assert HoldsValue(b[kb], v);
      assert kb < |a| && HoldsValue(a[kb], v);
    }
    if ka < |a| {
      assert HoldsValue(b[ka], v);
    }
  }

  // ---------------------------------------------------------------------------
  // Reweighting and re-sorting one node
  // ---------------------------------------------------------------------------

  /** Counts a new leaf (if any) and `w` more weight, then recomputes the aggregate. */
  function UpdateWeight<V, U>(wt: WeightType, t: Tree<V, U>, newLeaf: bool, w: real): (r: Tree<V, U>)
    requires t.Internal?
    requires wt == Sum || t.leafCount > 0 || newLeaf
    ensures r.Internal? && r.prefix == t.prefix && r.subtrees == t.subtrees
    ensures r.leafCount == t.leafCount + (if newLeaf then 1 else 0) && r.sumWeight == t.sumWeight + w
    ensures wt == Sum ==> r.weight == r.sumWeight
    ensures wt == Average ==> r.leafCount > 0 && r.weight * (r.leafCount as real) == r.sumWeight
  {
    var n := t.leafCount + (if newLeaf then 1 else 0);
    var s := t.sumWeight + w;
    t.(leafCount := n, sumWeight := s, weight := Aggregate(wt, s, n))
  }

  /** Rearranges the subtrees into non-increasing weight order; nothing else changes. */
  function SortSubtrees<V, U>(t: Tree<V, U>): (r: Tree<V, U>)
    requires t.Internal?
    ensures r.Internal? && r == t.(subtrees := r.subtrees)
    ensures multiset(r.subtrees) == multiset(t.subtrees)
    ensures NonIncreasing(r.subtrees, WeightOf)
  {
    t.(subtrees := SortThenReverse(t.subtrees, WeightOf))
  }

  /** What the parent does to a node after inserting beneath it. */
  function Refresh<V, U>(wt: WeightType, t: Tree<V, U>, newLeaf: bool, w: real): Tree<V, U>
    requires t.Internal?
    requires wt == Sum || t.leafCount > 0 || newLeaf
  {
    SortSubtrees(UpdateWeight(wt, t, newLeaf, w))
  }

  /**
   If a node's bookkeeping was accurate and its subtrees are replaced by valid,
   distinct-keyed ones holding `w` more weight and, when `newLeaf`, one more
   leaf, then reweighting and re-sorting leaves the node consistent again.
   */
  lemma RefreshRestores<V, U>(wt: WeightType, t: Tree<V, U>, cs: seq<Tree<V, U>>, newLeaf: bool, w: real)
    requires Consistent(wt, t) && SoundWalk(wt, t, cs, newLeaf, w)
    ensures wt == Sum || t.leafCount > 0 || newLeaf
    ensures var r := Refresh(wt, t.(subtrees := cs), newLeaf, w);
      && Consistent(wt, r)
      && r.prefix == t.prefix && r.subtrees != []
      && multiset(r.subtrees) == multiset(cs)
      && CountLeaves(r) == CountAll(cs) && SumLeaves(r) == SumAll(cs)
  {
    AllPositive(wt, cs, t.prefix);
    var u := UpdateWeight(wt, t.(subtrees := cs), newLeaf, w);
    assert Bookkept(wt, u);
    var r := SortSubtrees(u);
    assert CountAll(r.subtrees) == CountAll(cs) && SumAll(r.subtrees) == SumAll(cs) by {
      TotalsPermutation(cs, r.subtrees);
    }
    assert DistinctKeys(r.subtrees) by {
      DistinctPermutation(cs, r.subtrees);
    }
    assert forall c | c in r.subtrees :: Valid(wt, c, t.prefix) by {
      forall c | c in r.subtrees
        ensures Valid(wt, c, t.prefix)
      {
        assert c in multiset(cs);
      }
    }
    assert r.subtrees != [] by {
      assert cs[0] in multiset(r.subtrees);
    }
  }

  // ---------------------------------------------------------------------------
  // The insertion walk
  // ---------------------------------------------------------------------------

  /**
   The subtree list of `t` after inserting `value` with weight `w` at depth
   `i`, and whether a new leaf was created. The node's own bookkeeping is left
   for its parent (or for `Insert`, at the root) to refresh.
   */
  function Descend<V(==), U(==)>(wt: WeightType, t: Tree<V, U>, value: V, w: real, prefix: seq<U>, i: nat)
    : (r: (seq<Tree<V, U>>, bool))
    requires Consistent(wt, t)
    ensures r.1 <==> Lookup(t, value, prefix, i).None?
    decreases |prefix| - i + 1
  {
    if i <= |prefix| then
      var k := FindPrefix(t.subtrees, prefix[..i]);
      if k < |t.subtrees| then
        var c := t.subtrees[k];
        assert c in t.subtrees;
        ValidPositive(wt, c, t.prefix);
        var below := Descend(wt, c, value, w, prefix, i + 1);
        (t.subtrees[k := Refresh(wt, c.(subtrees := below.0), below.1, w)], below.1)
      else
        var newNode := Internal(prefix[..i], 0.0, 0, 0.0, []);
        LookupEmpty(newNode, value, prefix, i + 1);
        var below := Descend(wt, newNode, value, w, prefix, i + 1);
        (t.subtrees + [Refresh(wt, newNode.(subtrees := below.0), below.1, w)], below.1)
    else
      var k := FindLeaf(t.subtrees, value);
      if k < |t.subtrees| then
        (t.subtrees[k := Leaf(value, t.subtrees[k].weight + w)], false)
      else
        (t.subtrees + [Leaf(value, w)], true)
  }

  /**
   A new subtree list for node `t` that a walk may leave behind: valid
   subtrees with distinct keys, holding exactly `w` more weight and, when
   `newLeaf`, exactly one more leaf than before.
   */
  ghost predicate SoundWalk<V, U>(wt: WeightType, t: Tree<V, U>, cs: seq<Tree<V, U>>, newLeaf: bool, w: real)
    requires t.Internal?
  {
    && cs != []
    && (forall c | c in cs :: Valid(wt, c, t.prefix))
    && DistinctKeys(cs)
    && CountAll(cs) == CountAll(t.subtrees) + (if newLeaf then 1 else 0)
    && SumAll(cs) == SumAll(t.subtrees) + w
  }

  /** Replacing one subtree by a valid one with the same key keeps the list sound. */
  lemma ReplaceChild<V, U>(wt: WeightType, t: Tree<V, U>, k: nat, x: Tree<V, U>)
    requires Consistent(wt, t) && k < |t.subtrees|
    requires SameKey(t.subtrees[k], x) && Valid(wt, x, t.prefix)
    ensures forall c | c in t.subtrees[k := x] :: Valid(wt, c, t.prefix)
    ensures DistinctKeys(t.subtrees[k := x])
    ensures CountAll(t.subtrees[k := x]) == CountAll(t.subtrees) - CountLeaves(t.subtrees[k]) + CountLeaves(x)
    ensures SumAll(t.subtrees[k := x]) == SumAll(t.subtrees) - SumLeaves(t.subtrees[k]) + SumLeaves(x)
  {
    var subs := t.subtrees;
    TotalsReplace(subs, k, x);
    DistinctReplace(subs, k, x);
    forall c | c in subs[k := x]
      ensures Valid(wt, c, t.prefix)
    {
      var j :| 0 <= j < |subs[k := x]| && subs[k := x][j] == c;
      if j != k {
        assert c in subs;
      }
    }
  }

  /** Appending a valid subtree whose key is new keeps the list sound. */
  lemma AppendChild<V, U>(wt: WeightType, t: Tree<V, U>, x: Tree<V, U>)
    requires Consistent(wt, t) && Valid(wt, x, t.prefix)
    requires forall j :: 0 <= j < |t.subtrees| ==> !SameKey(t.subtrees[j], x)
    ensures forall c | c in t.subtrees + [x] :: Valid(wt, c, t.prefix)
    ensures DistinctKeys(t.subtrees + [x])
    ensures CountAll(t.subtrees + [x]) == CountAll(t.subtrees) + CountLeaves(x)
    ensures SumAll(t.subtrees + [x]) == SumAll(t.subtrees) + SumLeaves(x)
  {
    var subs := t.subtrees;
    TotalsSnoc(subs, x);
    DistinctSnoc(subs, x);
  }

  /** The walk keeps the tree valid: every node it passes is left consistent. */
  lemma {:induction false} DescendValid<V, U>(wt: WeightType, t: Tree<V, U>, value: V, w: real, prefix: seq<U>, i: nat)
    requires Consistent(wt, t) && 1 <= i <= |prefix| + 1 && t.prefix == prefix[..i - 1] && w > 0.0
    ensures var r := Descend(wt, t, value, w, prefix, i); SoundWalk(wt, t, r.0, r.1, w)
    decreases |prefix| - i + 1, 1
  {
    if i <= |prefix| {
      var k := FindPrefix(t.subtrees, prefix[..i]);
      if k < |t.subtrees| {
        DescendIntoValid(wt, t, value, w, prefix, i, k);
      } else {
        DescendNewValid(wt, t, value, w, prefix, i);
      }
    } else {
      DescendLeafValid(wt, t, value, w, prefix, i);
    }
  }

  /** The walk through an existing internal subtree. */
  lemma {:induction false} DescendIntoValid<V, U>(wt: WeightType, t: Tree<V, U>, value: V, w: real, prefix: seq<U>, i: nat, k: nat)
    requires Consistent(wt, t) && 1 <= i <= |prefix| && t.prefix == prefix[..i - 1] && w > 0.0
    requires k == FindPrefix(t.subtrees, prefix[..i]) && k < |t.subtrees|
    ensures var r := Descend(wt, t, value, w, prefix, i); SoundWalk(wt, t, r.0, r.1, w)
    decreases |prefix| - i + 1, 0
  {
    var c := t.subtrees[k];
    assert c in t.subtrees;
    ValidPositive(wt, c, t.prefix);
    var r := Descend(wt, c, value, w, prefix, i + 1);
    DescendValid(wt, c, value, w, prefix, i + 1);
    RefreshRestores(wt, c, r.0, r.1, w);
    var c' := Refresh(wt, c.(subtrees := r.0), r.1, w);
    assert Valid(wt, c', t.prefix);
    ReplaceChild(wt, t, k, c');
  }

  /** The walk through an internal subtree it has to create. */
  lemma {:induction false} DescendNewValid<V, U>(wt: WeightType, t: Tree<V, U>, value: V, w: real, prefix: seq<U>, i: nat)
    requires Consistent(wt, t) && 1 <= i <= |prefix| && t.prefix == prefix[..i - 1] && w > 0.0
    requires FindPrefix(t.subtrees, prefix[..i]) == |t.subtrees|
    ensures var r := Descend(wt, t, value, w, prefix, i); SoundWalk(wt, t, r.0, r.1, w)
    decreases |prefix| - i + 1, 0
  {
    var newNode: Tree<V, U> := Internal(prefix[..i], 0.0, 0, 0.0, []);
    LookupEmpty(newNode, value, prefix, i + 1);
    assert newNode.prefix == prefix[..(i + 1) - 1];
    var r := Descend(wt, newNode, value, w, prefix, i + 1);
    DescendValid(wt, newNode, value, w, prefix, i + 1);
    RefreshRestores(wt, newNode, r.0, r.1, w);
    var c' := Refresh(wt, newNode.(subtrees := r.0), r.1, w);
    assert prefix[..i][..i - 1] == prefix[..i - 1];
    assert Valid(wt, c', t.prefix);
    AppendChild(wt, t, c');
  }

  /** The end of the walk: the leaf is updated or added. */
  lemma DescendLeafValid<V, U>(wt: WeightType, t: Tree<V, U>, value: V, w: real, prefix: seq<U>, i: nat)
    requires Consistent(wt, t) && i == |prefix| + 1 && w > 0.0
    ensures var r := Descend(wt, t, value, w, prefix, i); SoundWalk(wt, t, r.0, r.1, w)
  {
    var subs := t.subtrees;
    var k := FindLeaf(subs, value);
    if k < |subs| {
      var prev := subs[k];
      var leaf := Leaf(value, prev.weight + w);
      assert Valid(wt, leaf, t.prefix) && SameKey(prev, leaf) by {
        assert prev in subs;
      }
      assert CountLeaves(leaf) == CountLeaves(prev) && SumLeaves(leaf) == SumLeaves(prev) + w;
      ReplaceChild(wt, t, k, leaf);
      assert Descend(wt, t, value, w, prefix, i) == (subs[k := leaf], false);
    } else {
      var leaf := Leaf(value, w);
      assert forall j :: 0 <= j < |subs| ==> !SameKey(subs[j], leaf);
      AppendChild(wt, t, leaf);
      assert Descend(wt, t, value, w, prefix, i) == (subs + [leaf], true);
    }
  }

  /** Replacing the subtree a lookup descends into redirects the lookup to the replacement. */
  lemma LookupReplaceChild<V, U>(t: Tree<V, U>, k: nat, x: Tree<V, U>, value: V, prefix: seq<U>, i: nat)
    requires t.Internal? && i <= |prefix|
    requires k == FindPrefix(t.subtrees, prefix[..i]) && k < |t.subtrees| && SameKey(t.subtrees[k], x)
    ensures x.Internal? && t.subtrees[k].Internal?
    ensures Lookup(t, value, prefix, i) == Lookup(t.subtrees[k], value, prefix, i + 1)
    ensures Lookup(t.(subtrees := t.subtrees[k := x]), value, prefix, i) == Lookup(x, value, prefix, i + 1)
  {
    FindReplace(t.subtrees, k, x, prefix[..i], value);
    LookupStep(t, value, prefix, i);
    LookupStep(t.(subtrees := t.subtrees[k := x]), value, prefix, i);
  }

  /** An internal subtree of a consistent node is consistent and holds at least one leaf. */
  lemma ChildFacts<V, U>(wt: WeightType, t: Tree<V, U>, k: nat)
    requires Consistent(wt, t) && k < |t.subtrees| && t.subtrees[k].Internal?
    ensures Consistent(wt, t.subtrees[k]) && t.subtrees[k].leafCount > 0
  {
    assert t.subtrees[k] in t.subtrees;
    ValidPositive(wt, t.subtrees[k], t.prefix);
  }

  /** One step of the walk through an existing internal subtree, spelled out. */
  lemma DescendIntoShape<V, U>(wt: WeightType, t: Tree<V, U>, value: V, w: real, prefix: seq<U>, i: nat, k: nat)
    requires Consistent(wt, t) && 1 <= i <= |prefix|
    requires k == FindPrefix(t.subtrees, prefix[..i]) && k < |t.subtrees|
    requires Consistent(wt, t.subtrees[k]) && t.subtrees[k].leafCount > 0
    ensures var c := t.subtrees[k];
      var below := Descend(wt, c, value, w, prefix, i + 1);
      Descend(wt, t, value, w, prefix, i)
        == (t.subtrees[k := Refresh(wt, c.(subtrees := below.0), below.1, w)], below.1)
  {
  }

  /** After the walk, the value is stored under the prefix with `w` more weight than before. */
  lemma {:induction false} DescendLookup<V, U>(wt: WeightType, t: Tree<V, U>, value: V, w: real, prefix: seq<U>, i: nat)
    requires Consistent(wt, t) && 1 <= i <= |prefix| + 1 && t.prefix == prefix[..i - 1] && w > 0.0
    ensures var r := Descend(wt, t, value, w, prefix, i);
      Lookup(t.(subtrees := r.0), value, prefix, i) == AddWeight(Lookup(t, value, prefix, i), w)
    decreases |prefix| - i + 1, 1
  {
    var subs := t.subtrees;
    if i <= |prefix| {
      var k := FindPrefix(subs, prefix[..i]);
      if k < |subs| {
        DescendIntoLookup(wt, t, value, w, prefix, i, k);
      } else {
        DescendNewLookup(wt, t, value, w, prefix, i);
      }
    } else {
      var r := Descend(wt, t, value, w, prefix, i);
      var k := FindLeaf(subs, value);
      if k < |subs| {
        var leaf := Leaf(value, subs[k].weight + w);
        assert r.0 == subs[k := leaf];
        FindReplace(subs, k, leaf, prefix, value);
      } else {
        var leaf := Leaf(value, w);
        assert r.0 == subs + [leaf];
        FindSnoc(subs, leaf, prefix, value);
      }
    }
  }

  lemma {:induction false} DescendIntoLookup<V, U>(wt: WeightType, t: Tree<V, U>, value: V, w: real, prefix: seq<U>, i: nat, k: nat)
    requires Consistent(wt, t) && 1 <= i <= |prefix| && t.prefix == prefix[..i - 1] && w > 0.0
    requires k == FindPrefix(t.subtrees, prefix[..i]) && k < |t.subtrees|
    ensures var r := Descend(wt, t, value, w, prefix, i);
      Lookup(t.(subtrees := r.0), value, prefix, i) == AddWeight(Lookup(t, value, prefix, i), w)
    decreases |prefix| - i + 1, 0
  {
    var c := t.subtrees[k];
    ChildFacts(wt, t, k);
    DescendIntoShape(wt, t, value, w, prefix, i, k);
    var rc := Descend(wt, c, value, w, prefix, i + 1);
    var c' := Refresh(wt, c.(subtrees := rc.0), rc.1, w);
    assert Lookup(c', value, prefix, i + 1) == AddWeight(Lookup(c, value, prefix, i + 1), w) by {
      DescendValid(wt, c, value, w, prefix, i + 1);
      DescendLookup(wt, c, value, w, prefix, i + 1);
      LookupPermutation(c.(subtrees := rc.0), c', value, prefix, i + 1);
    }
    LookupReplaceChild(t, k, c', value, prefix, i);
    var r := Descend(wt, t, value, w, prefix, i);
    assert r.0 == t.subtrees[k := c'];
    assert t.(subtrees := r.0) == t.(subtrees := t.subtrees[k := c']);
  }

  lemma {:induction false} DescendNewLookup<V, U>(wt: WeightType, t: Tree<V, U>, value: V, w: real, prefix: seq<U>, i: nat)
    requires Consistent(wt, t) && 1 <= i <= |prefix| && t.prefix == prefix[..i - 1] && w > 0.0
    requires FindPrefix(t.subtrees, prefix[..i]) == |t.subtrees|
    ensures var r := Descend(wt, t, value, w, prefix, i);
      Lookup(t.(subtrees := r.0), value, prefix, i) == AddWeight(Lookup(t, value, prefix, i), w)
    decreases |prefix| - i + 1, 0
  {
    var subs := t.subtrees;
    var newNode: Tree<V, U> := Internal(prefix[..i], 0.0, 0, 0.0, []);
    LookupEmpty(newNode, value, prefix, i + 1);
    assert newNode.prefix == prefix[..(i + 1) - 1];
    var rc := Descend(wt, newNode, value, w, prefix, i + 1);
    assert DistinctKeys(rc.0) by {
      DescendValid(wt, newNode, value, w, prefix, i + 1);
    }
    DescendLookup(wt, newNode, value, w, prefix, i + 1);
    var c' := Refresh(wt, newNode.(subtrees := rc.0), rc.1, w);
    LookupPermutation(newNode.(subtrees := rc.0), c', value, prefix, i + 1);
    var r := Descend(wt, t, value, w, prefix, i);
    assert r.0 == subs + [c'];
    FindSnoc(subs, c', prefix[..i], value);
    LookupStep(t, value, prefix, i);
    LookupStep(t.(subtrees := r.0), value, prefix, i);
  }

  // ---------------------------------------------------------------------------
  // The walk changes nothing else
  // ---------------------------------------------------------------------------

  /**
   The walk for `value` under `prefix` leaves the stored weight of every other
   value, and of `value` under every other prefix, as it was. `q` agrees with
   `prefix` on the part of the descent already made.
   */
  lemma {:induction false} DescendFrame<V, U>(wt: WeightType, t: Tree<V, U>, value: V, w: real, prefix: seq<U>, i: nat,
                                              v: V, q: seq<U>)
    requires Consistent(wt, t) && 1 <= i <= |prefix| + 1 && t.prefix == prefix[..i - 1] && w > 0.0
    requires i - 1 <= |q| && q[..i - 1] == prefix[..i - 1] && (v != value || q != prefix)
    ensures var r := Descend(wt, t, value, w, prefix, i);
      Lookup(t.(subtrees := r.0), v, q, i) == Lookup(t, v, q, i)
    decreases |prefix| - i + 1, 1
  {
    if i <= |prefix| {
      var k := FindPrefix(t.subtrees, prefix[..i]);
      if k < |t.subtrees| {
        DescendIntoFrame(wt, t, value, w, prefix, i, k, v, q);
      } else {
        DescendNewFrame(wt, t, value, w, prefix, i, v, q);
      }
    } else {
      DescendLeafFrame(wt, t, value, w, prefix, i, v, q);
    }
  }

  /** Lookups at a node whose subtree list changed only where `q` and `v` do not look. */
  lemma LookupAgree<V, U>(t: Tree<V, U>, cs: seq<Tree<V, U>>, v: V, q: seq<U>, i: nat)
    requires t.Internal? && |t.subtrees| <= |cs|
    requires i <= |q| ==>
      && (forall j :: 0 <= j < |t.subtrees| ==> (HasPrefix(t.subtrees[j], q[..i]) <==> HasPrefix(cs[j], q[..i])))
      && (forall j :: |t.subtrees| <= j < |cs| ==> !HasPrefix(cs[j], q[..i]))
      && (forall j :: 0 <= j < |t.subtrees| && HasPrefix(t.subtrees[j], q[..i]) ==> cs[j] == t.subtrees[j])
    requires i > |q| ==>
      && (forall j :: 0 <= j < |t.subtrees| ==> (HoldsValue(t.subtrees[j], v) <==> HoldsValue(cs[j], v)))
      && (forall j :: |t.subtrees| <= j < |cs| ==> !HoldsValue(cs[j], v))
      && (forall j :: 0 <= j < |t.subtrees| && HoldsValue(t.subtrees[j], v) ==> cs[j] == t.subtrees[j])
    ensures Lookup(t.(subtrees := cs), v, q, i) == Lookup(t, v, q, i)
  {
    var t' := t.(subtrees := cs);
    if i <= |q| {
      FindPrefixAgree(t.subtrees, cs, q[..i]);
      LookupStep(t, v, q, i);
      LookupStep(t', v, q, i);
    } else {
      FindLeafAgree(t.subtrees, cs, v);
    }
  }

  /** The end of the walk: only the leaf holding `value` changes. */
  lemma DescendLeafFrame<V, U>(wt: WeightType, t: Tree<V, U>, value: V, w: real, prefix: seq<U>, i: nat, v: V, q: seq<U>)
    requires Consistent(wt, t) && i == |prefix| + 1 && w > 0.0
    requires i - 1 <= |q| && q[..i - 1] == prefix[..i - 1] && (v != value || q != prefix)
    ensures var r := Descend(wt, t, value, w, prefix, i);
      Lookup(t.(subtrees := r.0), v, q, i) == Lookup(t, v, q, i)
  {
    var subs := t.subtrees;
    var k := FindLeaf(subs, value);
    if i > |q| {
      assert q == q[..i - 1] && prefix == prefix[..i - 1];
    }
    if k < |subs| {
      var leaf := Leaf(value, subs[k].weight + w);
      assert Descend(wt, t, value, w, prefix, i) == (subs[k := leaf], false);
      LookupAgree(t, subs[k := leaf], v, q, i);
    } else {
      var leaf := Leaf(value, w);
      assert Descend(wt, t, value, w, prefix, i) == (subs + [leaf], true);
      LookupAgree(t, subs + [leaf], v, q, i);
    }
  }

  /** The walk through an existing internal subtree: only that subtree changes. */
  lemma {:induction false} DescendIntoFrame<V, U>(wt: WeightType, t: Tree<V, U>, value: V, w: real, prefix: seq<U>, i: nat,
                                                  k: nat, v: V, q: seq<U>)
    requires Consistent(wt, t) && 1 <= i <= |prefix| && t.prefix == prefix[..i - 1] && w > 0.0
    requires k == FindPrefix(t.subtrees, prefix[..i]) && k < |t.subtrees|
    requires i - 1 <= |q| && q[..i - 1] == prefix[..i - 1] && (v != value || q != prefix)
    ensures var r := Descend(wt, t, value, w, prefix, i);
      Lookup(t.(subtrees := r.0), v, q, i) == Lookup(t, v, q, i)
    decreases |prefix| - i + 1, 0
  {
    var c := t.subtrees[k];
    ChildFacts(wt, t, k);
    DescendIntoShape(wt, t, value, w, prefix, i, k);
    var rc := Descend(wt, c, value, w, prefix, i + 1);
    var c' := Refresh(wt, c.(subtrees := rc.0), rc.1, w);
    var r := Descend(wt, t, value, w, prefix, i);
    assert r.0 == t.subtrees[k := c'];
    if i <= |q| && q[..i] == prefix[..i] {
      assert Lookup(c', v, q, i + 1) == Lookup(c, v, q, i + 1) by {
        DescendValid(wt, c, value, w, prefix, i + 1);
        DescendFrame(wt, c, value, w, prefix, i + 1, v, q);
        LookupPermutation(c.(subtrees := rc.0), c', v, q, i + 1);
      }
      LookupReplaceChild(t, k, c', v, q, i);
    } else {
      LookupAgree(t, t.subtrees[k := c'], v, q, i);
    }
  }

  /** The walk through an internal subtree it creates: only the new subtree is added. */
  lemma {:induction false} DescendNewFrame<V, U>(wt: WeightType, t: Tree<V, U>, value: V, w: real, prefix: seq<U>, i: nat,
                                                 v: V, q: seq<U>)
    requires Consistent(wt, t) && 1 <= i <= |prefix| && t.prefix == prefix[..i - 1] && w > 0.0
    requires FindPrefix(t.subtrees, prefix[..i]) == |t.subtrees|
    requires i - 1 <= |q| && q[..i - 1] == prefix[..i - 1] && (v != value || q != prefix)
    ensures var r := Descend(wt, t, value, w, prefix, i);
      Lookup(t.(subtrees := r.0), v, q, i) == Lookup(t, v, q, i)
    decreases |prefix| - i + 1, 0
  {
    var subs := t.subtrees;
    var newNode: Tree<V, U> := Internal(prefix[..i], 0.0, 0, 0.0, []);
    LookupEmpty(newNode, value, prefix, i + 1);
    assert newNode.prefix == prefix[..(i + 1) - 1];
    var rc := Descend(wt, newNode, value, w, prefix, i + 1);
    var c' := Refresh(wt, newNode.(subtrees := rc.0), rc.1, w);
    var r := Descend(wt, t, value, w, prefix, i);
    assert r.0 == subs + [c'];
    if i <= |q| && q[..i] == prefix[..i] {
      assert Lookup(c', v, q, i + 1) == None by {
        DescendValid(wt, newNode, value, w, prefix, i + 1);
        DescendFrame(wt, newNode, value, w, prefix, i + 1, v, q);
        LookupPermutation(newNode.(subtrees := rc.0), c', v, q, i + 1);
        LookupEmpty(newNode, v, q, i + 1);
      }
      FindSnoc(subs, c', q[..i], v);
      LookupStep(t, v, q, i);
      LookupStep(t.(subtrees := r.0), v, q, i);
    } else {
      LookupAgree(t, subs + [c'], v, q, i);
    }
  }

  // ---------------------------------------------------------------------------
  // The public operation
  // ---------------------------------------------------------------------------

  /** Refreshing the root after the walk leaves a valid tree with the walk's leaves. */
  lemma InsertRootValid<V, U>(wt: WeightType, t: Tree<V, U>, value: V, w: real, prefix: seq<U>)
    requires ValidRoot(wt, t) && w > 0.0
    ensures var walk := Descend(wt, t, value, w, prefix, 1);
      && (wt == Sum || t.leafCount > 0 || walk.1)
      && var r := Refresh(wt, t.(subtrees := walk.0), walk.1, w);
      && ValidRoot(wt, r)
      && multiset(r.subtrees) == multiset(walk.0) && DistinctKeys(walk.0)
      && CountLeaves(r) == CountLeaves(t) + (if walk.1 then 1 else 0)
  {
    var walk := Descend(wt, t, value, w, prefix, 1);
    DescendValid(wt, t, value, w, prefix, 1);
    RefreshRestores(wt, t, walk.0, walk.1, w);
  }

  /** The facts `Insert` promises, established for the root. */
  lemma InsertSound<V, U>(wt: WeightType, t: Tree<V, U>, value: V, w: real, prefix: seq<U>)
    requires ValidRoot(wt, t) && w > 0.0
    ensures var walk := Descend(wt, t, value, w, prefix, 1);
      && (wt == Sum || t.leafCount > 0 || walk.1)
      && var r := Refresh(wt, t.(subtrees := walk.0), walk.1, w);
      && ValidRoot(wt, r)
      && Length(r) == Length(t) + (if walk.1 then 1 else 0)
      && Lookup(r, value, prefix, 1) == AddWeight(Lookup(t, value, prefix, 1), w)
  {
    var walk := Descend(wt, t, value, w, prefix, 1);
    InsertRootValid(wt, t, value, w, prefix);
    var r := Refresh(wt, t.(subtrees := walk.0), walk.1, w);
    assert Length(r) == Length(t) + (if walk.1 then 1 else 0) by {
      LengthOfRoot(wt, t);
      LengthOfRoot(wt, r);
    }
    InsertLookup(wt, t, value, w, prefix, walk, r);
  }

  /** Any re-sorting of the root's new subtrees stores the value with `w` more weight. */
  lemma InsertLookup<V, U>(wt: WeightType, t: Tree<V, U>, value: V, w: real, prefix: seq<U>,
                           walk: (seq<Tree<V, U>>, bool), r: Tree<V, U>)
    requires ValidRoot(wt, t) && w > 0.0 && walk == Descend(wt, t, value, w, prefix, 1)
    requires r.Internal? && multiset(r.subtrees) == multiset(walk.0) && DistinctKeys(walk.0)
    ensures Lookup(r, value, prefix, 1) == AddWeight(Lookup(t, value, prefix, 1), w)
  {
    DescendLookup(wt, t, value, w, prefix, 1);
    LookupPermutation(t.(subtrees := walk.0), r, value, prefix, 1);
  }

  /** Any re-sorting of the root's new subtrees stores every other value and prefix as before. */
  lemma InsertFrame<V, U>(wt: WeightType, t: Tree<V, U>, value: V, w: real, prefix: seq<U>,
                          walk: (seq<Tree<V, U>>, bool), r: Tree<V, U>, v: V, q: seq<U>)
    requires ValidRoot(wt, t) && w > 0.0 && walk == Descend(wt, t, value, w, prefix, 1)
    requires r.Internal? && multiset(r.subtrees) == multiset(walk.0) && DistinctKeys(walk.0)
    requires v != value || q != prefix
    ensures Lookup(r, v, q, 1) == Lookup(t, v, q, 1)
  {
    DescendFrame(wt, t, value, w, prefix, 1, v, q);
    LookupPermutation(t.(subtrees := walk.0), r, v, q, 1);
  }

  /** The refreshed root after the walk stores every other value and prefix as before. */
  lemma InsertFrameAll<V(!new), U(!new)>(wt: WeightType, t: Tree<V, U>, value: V, w: real, prefix: seq<U>)
    requires ValidRoot(wt, t) && w > 0.0
    ensures var walk := Descend(wt, t, value, w, prefix, 1);
      && (wt == Sum || t.leafCount > 0 || walk.1)
      && var r := Refresh(wt, t.(subtrees := walk.0), walk.1, w);
      && r.Internal?
      && forall v, q | v != value || q != prefix :: Lookup(r, v, q, 1) == Lookup(t, v, q, 1)
  {
    var walk := Descend(wt, t, value, w, prefix, 1);
    InsertRootValid(wt, t, value, w, prefix);
    var r := Refresh(wt, t.(subtrees := walk.0), walk.1, w);
    forall v, q | v != value || q != prefix
      ensures Lookup(r, v, q, 1) == Lookup(t, v, q, 1)
    {
      InsertFrame(wt, t, value, w, prefix, walk, r, v, q);
    }
  }

  /**
   Inserts `value` with weight `w` under `prefix`. The result is again a valid
   tree; its size grows by one exactly when the value was not yet stored under
   that prefix; the value's stored weight grows by `w` (from nothing, for a
   new value); and every other value, and the value under every other prefix,
   keeps its stored weight.
   */
  function Insert<V(==, !new), U(==, !new)>(wt: WeightType, t: Tree<V, U>, value: V, w: real, prefix: seq<U>)
    : (r: Tree<V, U>)
    requires ValidRoot(wt, t)
    requires w > 0.0
    ensures ValidRoot(wt, r)
    ensures Length(r) == Length(t) + (if Stored(t, value, prefix) then 0 else 1)
    ensures Lookup(r, value, prefix, 1) == AddWeight(Lookup(t, value, prefix, 1), w)
    ensures forall v, q | v != value || q != prefix :: Lookup(r, v, q, 1) == Lookup(t, v, q, 1)
  {
    InsertSound(wt, t, value, w, prefix);
    InsertFrameAll(wt, t, value, w, prefix);
    var walk := Descend(wt, t, value, w, prefix, 1);
    Refresh(wt, t.(subtrees := walk.0), walk.1, w)
  }
}
