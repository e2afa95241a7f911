/**
 The simple prefix tree: its nodes, its representation invariant, the leaf
 bookkeeping every internal node carries, and the size query.

 A tree stores values of type `V` under prefix sequences over units of type
 `U`. Weights are reals; the runtime's floating point is not modelled.
 */
module PrefixTree {
  import opened Sorting

  datatype Option<T> = None | Some(value: T) {
    function GetOr(default: T): T {
      match this
      case Some(v) => v
      case None => default
    }
  }

  /** How an internal node combines the weights of the leaves beneath it. */
  datatype WeightType = Sum | Average

  /**
   A node of the tree.
   - `Leaf`: an inserted value and its accumulated weight.
   - `Internal`: a common prefix, the aggregate weight, the number of leaves
     beneath it, the total of their weights, and the subtrees.
   The empty tree is the internal node with prefix `[]`, weight 0, no leaves
   and no subtrees (see `Empty`); a node freshly created during insertion has
   the same shape with a longer prefix.
   */
  datatype Tree<V, U> =
    | Leaf(value: V, weight: real)
    | Internal(prefix: seq<U>, weight: real, leafCount: nat, sumWeight: real,
               subtrees: seq<Tree<V, U>>)

  /** The tree a newly constructed prefix tree holds. */
  function Empty<V, U>(): Tree<V, U> {
    Internal([], 0.0, 0, 0.0, [])
  }

  function Children<V, U>(t: Tree<V, U>): seq<Tree<V, U>> {
    if t.Leaf? then [] else t.subtrees
  }

  /** The sort key of subtrees. */
  function WeightOf<V, U>(t: Tree<V, U>): real {
    t.weight
  }

  /** The emptiness test of the source: a weight of zero. */
  predicate IsEmpty<V, U>(t: Tree<V, U>) {
    t.weight == 0.0
  }

  /** The leaf test of the source: a positive weight and no subtrees. */
  predicate IsLeaf<V, U>(t: Tree<V, U>) {
    t.weight > 0.0 && Children(t) == []
  }

  /**
   No internal node at or below `t` has a positive weight but no subtrees: the
   source's leaf test then holds of leaves only (valid trees have this shape).
   */
  ghost predicate NoBareNodes<V, U>(t: Tree<V, U>)
    decreases t
  {
    match t
    case Leaf(_, _) => true
    case Internal(_, w, _, _, subs) => (w > 0.0 ==> subs != []) && forall c | c in subs :: NoBareNodes(c)
  }

  /** The aggregate weight of `count` leaves whose weights total `sum`. */
  function Aggregate(wt: WeightType, sum: real, count: nat): real
    requires wt == Sum || count > 0
  {
    if wt == Sum then sum else sum / count as real
  }

  // ---------------------------------------------------------------------------
  // Leaf counts and weight totals, computed from the structure
  // ---------------------------------------------------------------------------

  /** The number of leaves in `t`. */
  ghost function CountLeaves<V, U>(t: Tree<V, U>): nat
    decreases t
  {
    match t
    case Leaf(_, _) => 1
    case Internal(_, _, _, _, subs) => CountAll(subs)
  }

  ghost function CountAll<V, U>(ts: seq<Tree<V, U>>): nat
    decreases ts
  {
    if ts == [] then 0 else CountLeaves(ts[0]) + CountAll(ts[1..])
  }

  /** The total weight of the leaves in `t`. */
  ghost function SumLeaves<V, U>(t: Tree<V, U>): real
    decreases t
  {
    match t
    case Leaf(_, w) => w
    case Internal(_, _, _, _, subs) => SumAll(subs)
  }

  ghost function SumAll<V, U>(ts: seq<Tree<V, U>>): real
    decreases ts
  {
    if ts == [] then 0.0 else SumLeaves(ts[0]) + SumAll(ts[1..])
  }

  // ---------------------------------------------------------------------------
  // Keys of subtrees: internal nodes are found by prefix, leaves by value
  // ---------------------------------------------------------------------------

  predicate HasPrefix<V, U(==)>(t: Tree<V, U>, p: seq<U>) {
    t.Internal? && t.prefix == p
  }

  predicate HoldsValue<V(==), U>(t: Tree<V, U>, v: V) {
    t.Leaf? && t.value == v
  }

  /** Two subtrees a lookup cannot tell apart. */
  predicate SameKey<V(==), U(==)>(a: Tree<V, U>, b: Tree<V, U>) {
    (a.Internal? && HasPrefix(b, a.prefix)) || (a.Leaf? && HoldsValue(b, a.value))
  }

  /** No two subtrees share a key, and none occurs twice. */
  ghost predicate DistinctKeys<V, U>(ts: seq<Tree<V, U>>) {
    forall a, b | a in ts && b in ts && SameKey(a, b) :: a == b && multiset(ts)[a] == 1
  }

  /** Index of the first internal subtree whose prefix is `p`, or `|ts|`. */
  function FindPrefix<V, U(==)>(ts: seq<Tree<V, U>>, p: seq<U>): (k: nat)
    ensures k <= |ts|
    ensures k < |ts| ==> HasPrefix(ts[k], p)
    ensures forall j :: 0 <= j < k ==> !HasPrefix(ts[j], p)
  {
    if ts == [] then 0
    else if HasPrefix(ts[0], p) then 0
    else 1 + FindPrefix(ts[1..], p)
  }

  /** Index of the first leaf holding `v`, or `|ts|`. */
  function FindLeaf<V(==), U>(ts: seq<Tree<V, U>>, v: V): (k: nat)
    ensures k <= |ts|
    ensures k < |ts| ==> HoldsValue(ts[k], v)
    ensures forall j :: 0 <= j < k ==> !HoldsValue(ts[j], v)
  {
    if ts == [] then 0
    else if HoldsValue(ts[0], v) then 0
    else 1 + FindLeaf(ts[1..], v)
  }

  // ---------------------------------------------------------------------------
  // Representation invariant
  // ---------------------------------------------------------------------------

  /**
   The bookkeeping of an internal node is accurate: its leaf count and weight
   total are those of the leaves beneath it, and its weight is their aggregate
   (zero while it has no leaves).
   */
  ghost predicate Bookkept<V, U>(wt: WeightType, t: Tree<V, U>)
    requires t.Internal?
  {
    && t.leafCount == CountAll(t.subtrees)
    && t.sumWeight == SumAll(t.subtrees)
    && t.weight == (if t.leafCount == 0 then 0.0 else Aggregate(wt, t.sumWeight, t.leafCount))
  }

  /**
   An internal node whose own fields and subtree list are in order: accurate
   bookkeeping, subtrees sorted by non-increasing weight, distinct keys, and
   every subtree valid one level below this node's prefix.
   */
  ghost predicate Consistent<V, U>(wt: WeightType, t: Tree<V, U>)
    decreases t, 0
  {
    && t.Internal?
    && Bookkept(wt, t)
    && NonIncreasing(t.subtrees, WeightOf)
    && DistinctKeys(t.subtrees)
    && forall c | c in t.subtrees :: Valid(wt, c, t.prefix)
  }

  /**
   A non-empty subtree of a node whose prefix is `parent`: a leaf of positive
   weight, or an internal node with at least one subtree whose prefix is
   `parent` extended by exactly one unit.
   */
  ghost predicate Valid<V, U>(wt: WeightType, t: Tree<V, U>, parent: seq<U>)
    decreases t, 1
  {
    match t
    case Leaf(_, w) => w > 0.0
    case Internal(p, _, _, _, subs) =>
      && |p| == |parent| + 1
      && p[..|parent|] == parent
      && subs != []
      && Consistent(wt, t)
  }

  /** The whole tree: an internal root with the empty prefix. */
  ghost predicate ValidRoot<V, U>(wt: WeightType, t: Tree<V, U>) {
    t.Internal? && t.prefix == [] && Consistent(wt, t)
  }

  /** A newly constructed tree is empty, valid, and of size zero. */
  lemma EmptyIsValid<V, U>(wt: WeightType)
    ensures ValidRoot(wt, Empty<V, U>())
    ensures IsEmpty(Empty<V, U>()) && Length(Empty<V, U>()) == 0
  {
  }

  /** Valid subtrees are never empty: they hold a leaf and have positive weight. */
  lemma {:induction false} ValidPositive<V, U>(wt: WeightType, t: Tree<V, U>, parent: seq<U>)
    requires Valid(wt, t, parent)
    ensures CountLeaves(t) >= 1 && SumLeaves(t) > 0.0 && t.weight > 0.0
    decreases t, 1
  {
    if t.Internal? {
      AllPositive(wt, t.subtrees, t.prefix);
      var n, s := t.leafCount, t.sumWeight;
      if wt == Average {
        assert t.weight * n as real == s;
      }
    }
  }

  /** A list of valid subtrees holds at least one leaf per subtree. */
  lemma {:induction false} AllPositive<V, U>(wt: WeightType, ts: seq<Tree<V, U>>, parent: seq<U>)
    requires forall c | c in ts :: Valid(wt, c, parent)
    ensures CountAll(ts) >= |ts|
    ensures SumAll(ts) >= 0.0 && (ts != [] ==> SumAll(ts) > 0.0)
    decreases ts, 0
  {
    if ts != [] {
      ValidPositive(wt, ts[0], parent);
      AllPositive(wt, ts[1..], parent);
    }
  }

  /** A consistent node has no leaves exactly when it has no subtrees. */
  lemma ConsistentEmpty<V, U>(wt: WeightType, t: Tree<V, U>)
    requires Consistent(wt, t)
    ensures t.leafCount == 0 <==> t.subtrees == []
    ensures t.leafCount == 0 <==> t.weight == 0.0
  {
    AllPositive(wt, t.subtrees, t.prefix);
    if t.leafCount > 0 && wt == Average {
      assert t.weight * t.leafCount as real == t.sumWeight;
    }
  }

  /** Under the invariant the source's leaf test picks out exactly the leaves. */
  lemma NodeKinds<V, U>(wt: WeightType, t: Tree<V, U>, parent: seq<U>)
    requires Valid(wt, t, parent)
    ensures IsLeaf(t) <==> t.Leaf?
    ensures !IsEmpty(t)
  {
    ValidPositive(wt, t, parent);
  }

  // ---------------------------------------------------------------------------
  // Size
  // ---------------------------------------------------------------------------

  /**
   The number of values stored: 0 if empty, 1 for a leaf, else the sum over
   the subtrees (none, for a leaf-shaped node of negative weight). It never
   exceeds the number of leaves when no internal node is bare, and equals it on
   valid trees (`LengthOfValid`).
   */
  function Length<V, U>(t: Tree<V, U>): (r: nat)
    ensures NoBareNodes(t) ==> r <= CountLeaves(t)
    decreases t
  {
    if IsEmpty(t) then 0
    else if IsLeaf(t) then 1
    else match t
      case Leaf(_, _) => 0
      case Internal(_, _, _, _, subs) => LengthAll(subs)
  }

  function LengthAll<V, U>(ts: seq<Tree<V, U>>): (r: nat)
    ensures (forall c | c in ts :: NoBareNodes(c)) ==> r <= CountAll(ts)
    decreases ts
  {
    if ts == [] then 0 else Length(ts[0]) + LengthAll(ts[1..])
  }

  /** The size of a valid subtree is its number of leaves. */
  lemma {:induction false} LengthOfValid<V, U>(wt: WeightType, t: Tree<V, U>, parent: seq<U>)
    requires Valid(wt, t, parent)
    ensures Length(t) == CountLeaves(t)
    decreases t, 1
  {
    NodeKinds(wt, t, parent);
    if t.Internal? {
      LengthAllValid(wt, t.subtrees, t.prefix);
    }
  }

  lemma {:induction false} LengthAllValid<V, U>(wt: WeightType, ts: seq<Tree<V, U>>, parent: seq<U>)
    requires forall c | c in ts :: Valid(wt, c, parent)
    ensures LengthAll(ts) == CountAll(ts)
    decreases ts, 0
  {
    if ts != [] {
      LengthOfValid(wt, ts[0], parent);
      LengthAllValid(wt, ts[1..], parent);
    }
  }

  /** The size of a valid tree is the number of its leaves, which its root records. */
  lemma LengthOfRoot<V, U>(wt: WeightType, t: Tree<V, U>)
    requires ValidRoot(wt, t)
    ensures Length(t) == CountLeaves(t) == t.leafCount
  {
    ConsistentEmpty(wt, t);
    LengthAllValid(wt, t.subtrees, t.prefix);
  }

  // ---------------------------------------------------------------------------
  // Descent along a prefix
  // ---------------------------------------------------------------------------

  /**
   The node reached from `t` by following `prefix[..i]`, `prefix[..i + 1]`, ...,
   `prefix` through the first internal subtree holding each of them; `None` as
   soon as one of them is missing. Insertion and autocompletion both descend
   this way, starting at `i == 1` from the root.
   */
  function Locate<V, U(==)>(t: Tree<V, U>, prefix: seq<U>, i: nat): (r: Option<Tree<V, U>>)
    requires t.Internal?
    ensures r.Some? ==> r.value.Internal?
    ensures r.Some? && i <= |prefix| ==> r.value.prefix == prefix
    ensures i > |prefix| ==> r == Some(t)
    decreases |prefix| - i + 1
  {
    if i <= |prefix| then
      var k := FindPrefix(t.subtrees, prefix[..i]);
      if k < |t.subtrees| then Locate(t.subtrees[k], prefix, i + 1) else None
    else
      Some(t)
  }

  /**
   The weight stored for `value` under `prefix`: the weight of the first leaf
   holding `value` among the subtrees of the node `Locate` reaches, if any.
   */
  function Lookup<V(==), U(==)>(t: Tree<V, U>, value: V, prefix: seq<U>, i: nat): Option<real>
    requires t.Internal?
  {
    match Locate(t, prefix, i)
    case None => None
    case Some(n) =>
      var k := FindLeaf(n.subtrees, value);
      if k < |n.subtrees| then Some(n.subtrees[k].weight) else None
  }

  /** What is stored after adding weight `w` to a stored weight, or to nothing. */
  function AddWeight(stored: Option<real>, w: real): Option<real> {
    Some(stored.GetOr(0.0) + w)
  }

  /** Whether `value` is already stored under `prefix` in the tree rooted at `t`. */
  predicate Stored<V(==), U(==)>(t: Tree<V, U>, value: V, prefix: seq<U>)
    requires t.Internal?
  {
    Lookup(t, value, prefix, 1).Some?
  }
}
