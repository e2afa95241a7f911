# Simple prefix tree autocompleter, modelled in Dafny

This project models the core of a weighted-prefix autocomplete engine. It has
two parts.

**The simple prefix tree (`SimplePrefixTree`).** The tree stores
(value, weight, prefix-sequence) triples:
- Each internal node holds a prefix one unit longer than its parent's.
- The leaves hold the inserted values with their accumulated weights.
- Every internal node records how many leaves lie beneath it and their total
  weight. From these it derives an aggregate weight: the sum or the mean,
  according to the tree's weight type.
- A node's subtrees are kept sorted by non-increasing weight.

The tree answers three queries:
- `insert` adds a value under a prefix, or adds weight to a value already stored
  there.
- `autocomplete` returns the (value, weight) pairs under a prefix, heaviest
  first, optionally capped by a limit.
- `len` returns the number of stored values.

**The input sanitizer (`sanitize`).** It keeps the letters, digits and spaces of
a string, lower-cases them, and strips newlines from both ends.

The Dafny modules follow this structure:

- `Sorting` (`sorting.dfy`) holds the two orderings the program uses, modelled
  exactly as its runtime performs them:
  - a stable ascending sort followed by a reversal, for subtrees;
  - a stable descending sort, for results.
- `PrefixTree` (`prefix_tree.dfy`) holds the tree and its parts:
  - the node datatype and the representation invariant (`Valid`, `Consistent`,
    `ValidRoot`);
  - the leaf totals the bookkeeping must match;
  - the size query;
  - the descent along a prefix (`Locate`) and the stored weight of a value
    (`Lookup`).
- `Insertion` (`insert.dfy`) covers insertion:
  - the recursive walk (`Descend`, the `_insert_helper`);
  - reweighting and re-sorting a node (`UpdateWeight`, `SortSubtrees`);
  - the public `Insert`, with proofs that it keeps every invariant, grows the
    size exactly when the value is new under the prefix, and adds the weight to
    the stored value.
- `Completion` (`autocomplete.dfy`) covers autocompletion:
  - the two collectors (`NoLimitItems`, `LimitedItems`);
  - the descent (`AutocompleteFrom`) and the public `Autocomplete`;
  - what they return on valid trees;
  - a concrete tree on which the limited collector does not pick the heaviest
    leaves.
- `Sanitize` (`sanitize.dfy`) holds the sanitizer loop, a front-to-back
  reference definition, and its properties.

The weight type (`'sum'` or `'average'`) is a parameter of the operations,
not a field of every node.

The empty tree is the internal node with the empty prefix, no subtrees and
weight 0.

A leaf carries only its value and weight. In the source, a leaf's leaf count
is always 1 and its weight total always equals its weight, so both are
implied.

The `Autocompleter` interface is represented by the operations themselves:
`Length`, `Insert` and `Autocomplete`, over any tree.

The docstring of `_limited_items` (prefix_tree_1.py:316) promises the
highest-weighted `limit` items. The code instead takes the first `limit`
leaves in stored, depth-first order. The model follows the code:
`LimitedItems` is proved equal to that prefix, and
`Completion.LimitedNotHeaviest` exhibits a valid tree where the two differ.

## Model

| member | source | states |
|---|---|---|
| PrefixTree.EmptyIsValid | prefix_tree_1.py:135-149 | A newly constructed tree satisfies the representation invariant, is empty, and has size 0. |
| PrefixTree.ValidPositive | prefix_tree_1.py:102-121 | Every subtree that satisfies the invariant holds at least one leaf, has positive total leaf weight, and has a positive weight. This holds in both weight modes, so no stored subtree is empty. |
| PrefixTree.ConsistentEmpty | prefix_tree_1.py:105-113 | At a node whose bookkeeping is accurate, these three conditions coincide: no leaves, no subtrees, and weight 0. |
| PrefixTree.NodeKinds | prefix_tree_1.py:332-338 | On a valid subtree, the source's leaf test (`IsLeaf`, `is_leaf`) holds exactly for leaves, and its emptiness test (`IsEmpty`, `is_empty`) never holds. |
| PrefixTree.Length | prefix_tree_1.py:151-162 | The size of a tree in which no internal node is bare (positive weight, no subtrees) never exceeds its number of leaves. A node that is neither empty nor a leaf in the source's sense adds up its subtrees' sizes, so a leaf-shaped node of negative weight has size 0. |
| PrefixTree.LengthOfValid | prefix_tree_1.py:151-162 | The recursive size of a valid subtree is its number of leaves. |
| PrefixTree.LengthOfRoot | prefix_tree_1.py:151-162 | The size of a valid tree equals both its number of leaves and the leaf count its root records. |
| PrefixTree.FindPrefix | prefix_tree_1.py:190-191 | The index found is that of the first internal subtree with the searched prefix, or the list length when there is none. |
| PrefixTree.FindLeaf | prefix_tree_1.py:207-208 | The index found is that of the first leaf holding the searched value, or the list length when there is none. |
| PrefixTree.Locate | prefix_tree_1.py:189-191 | The descent along a prefix either fails or reaches an internal node whose prefix is the whole searched prefix. When it succeeds is stated by `Completion.LocateAncestor` and `Completion.InsertCompletes`. |
| Sorting.SortThenReverse | prefix_tree_1.py:261-262 | Sorting ascending by weight and then reversing rearranges the list (same multiset) into non-increasing order. |
| Sorting.SortDesc | prefix_tree_1.py:290 | The descending sort of results rearranges them (same multiset) into non-increasing weight order. |
| Insertion.UpdateWeight | prefix_tree_1.py:245-256 | The leaf count grows by one for a new leaf, and the weight total grows by the inserted weight. In sum mode the weight is the total; in average mode, weight times leaf count equals the total. Prefix and subtrees are unchanged. |
| Insertion.SortSubtrees | prefix_tree_1.py:258-263 | Re-sorting only rearranges a node's subtrees, into non-increasing weight order. No other field changes. |
| Insertion.RefreshRestores | prefix_tree_1.py:195-196 | A node's subtrees may be replaced by valid, distinct-keyed ones holding the inserted weight more (and, for a new leaf, one leaf more). Reweighting and re-sorting then leaves the node's bookkeeping accurate, its subtrees sorted, and its leaf totals equal to those of the new subtrees. |
| Insertion.Descend | prefix_tree_1.py:185-219 | The walk reports that it created a new leaf exactly when the value was not yet stored under the prefix. |
| Insertion.DescendValid | prefix_tree_1.py:189-219 | The new subtree list the walk leaves at each node is valid. Its keys are distinct, it holds exactly the inserted weight more, and it holds one more leaf exactly when a new leaf was created. |
| Insertion.DescendLookup | prefix_tree_1.py:189-211 | After the walk, the value's stored weight under the prefix is its former weight plus the inserted weight, or just the inserted weight if it was not stored before. |
| Insertion.DescendFrame | prefix_tree_1.py:189-219 | The walk leaves the stored weight of every other value, and of the same value under every other prefix, as it was. |
| Insertion.InsertFrame | prefix_tree_1.py:164-183 | After the root is reweighted and re-sorted, every other (value, prefix) pair still has its former stored weight, or is still absent. |
| Insertion.Insert | prefix_tree_1.py:164-183 | Insertion keeps the tree valid: prefixes grow by one, bookkeeping is accurate, subtrees are sorted, and keys are distinct. The size grows by one exactly when the value was not stored under the prefix. The value's stored weight under the prefix grows by the inserted weight. Every other value, and the value under every other prefix, keeps its stored weight. |
| Completion.NoLimitItems | prefix_tree_1.py:297-311 | Every collected pair has positive weight and is a leaf at or below the node; there are at most as many pairs as leaves. On valid subtrees the pairs are exactly the leaves (`ItemsOfValid`). |
| Completion.LimitedItems | prefix_tree_1.py:313-330 | The limited collector returns exactly the first `limit` pairs (or all of them, if fewer) of the unlimited collector's list. |
| Completion.ItemsOfValid | prefix_tree_1.py:297-311 | The unlimited collector's list for a valid subtree has one pair per leaf, has the leaves' total weight, and contains exactly the leaves beneath the subtree. |
| Completion.ItemsOfNode | prefix_tree_1.py:297-311 | At a node whose invariant holds, the unlimited collector's list has as many pairs as the recorded leaf count. Its weights add up to the recorded weight total, and its members are exactly the leaves beneath the node. |
| Completion.AutocompleteFrom | prefix_tree_1.py:278-295 | The result is empty when some prefix along the descent is missing. Otherwise it is a non-increasing rearrangement of the pairs collected at the node reached: all of them, or the first `limit`. It never holds more than `limit` pairs. |
| Completion.Autocomplete | prefix_tree_1.py:265-276 | The result is in non-increasing weight order and has at most `limit` pairs. It is empty when the prefix is missing. Otherwise it is a rearrangement of the collected pairs. |
| Completion.AutocompleteAll | prefix_tree_1.py:265-311 | Without a limit, on a valid tree, the results for a present prefix are exactly the leaves beneath the node the prefix leads to, one result per leaf. The results for a missing prefix are empty. |
| Completion.AutocompleteLimited | prefix_tree_1.py:265-330 | With a limit, the result has min(limit, number of matches) pairs, all drawn from the unlimited result. A limit at least the number of matches gives exactly the unlimited result. |
| Completion.LocateHolds | prefix_tree_1.py:281-286 | Every leaf below the node a descent reaches is a leaf below the node the descent started from. |
| Completion.LocateAncestor | prefix_tree_1.py:281-286 | If the descent along a prefix succeeds, the descent along each of its prefixes succeeds too, and reaches a node holding every leaf the longer descent reaches. |
| Completion.LookupCompletes | prefix_tree_1.py:50-61 | A value stored under a prefix is among the completions of that prefix and of each of its prefixes, with its stored weight: every match is returned when there is no limit. |
| Completion.InsertCompletes | prefix_tree_1.py:32-61 | After a value is inserted under a prefix, the descent along every prefix of it succeeds, and completing any of them offers the value with its accumulated weight. |
| Completion.LimitedNotHeaviest | prefix_tree_1.py:313-320 | The claim that the limited collector picks the highest-weighted items fails. The witness is a valid sum-mode tree whose completions with limit 2 are the leaves of weights 6 and 4, although a leaf of weight 5 also matches. |
| Sanitize.Sanitize | sanitize.py:1-7 | The result equals the reference definition: the input's letters, digits and spaces, lower-cased, in order. It holds only such characters, has no upper-case letters and no newline, and is no longer than the input. |
| Sanitize.LowerFilterIsClean | sanitize.py:2-7 | Lower-casing the characters the loop keeps gives the reference definition. |
| Sanitize.StripAbsent | sanitize.py:7 | Stripping a character that does not occur changes nothing, so the final strip of newlines is a no-op. |
| Sanitize.CleanEmptyIff | sanitize.py:1-7 | The result is empty exactly when the input has no letter, digit or space; this covers the empty and the all-punctuation input. |
| Sanitize.CleanIdempotent | sanitize.py:1-7 | Sanitizing a sanitized string changes nothing. |

## Left out

- `remove` and `_remove_helper` (prefix_tree_1.py:221-243): their bodies do nothing, because the recursive removal is commented out. A call leaves the tree unchanged, so the model has no removal and no pruning.
- `CompressedPrefixTree` and `__str__`/`_str_indented`: outside the modelled core.
- Subtree lookup by value: the source finds an internal subtree by comparing `prefix[0:i]` with every subtree's value, and a leaf by comparing the value with every subtree's value. Leaves and internal nodes share that list. The model looks for prefixes only among internal subtrees and for values only among leaves. The two differ only when an inserted value equals one of the prefix sequences, which the program's own data never produces.
- Floating point: weights are exact reals. Rounding in sums and in the average's division is not modelled.
- Character classes: `isalnum` and `lower` are modelled on ASCII letters and digits only, not the full Unicode tables.
- The weight-type string: modelled as a two-valued datatype. The source treats every string other than `'sum'` as average.
- An internal node with positive weight but no subtrees: the source treats such a node as a leaf. `Length` counts it as 1, as `__len__` does. In `_no_limit_items` and `_limited_items` it would yield its prefix paired with its weight, which is not a (value, weight) pair of the model's types, so `NoLimitItems`/`LimitedItems` give it no pair. The invariant excludes such nodes, and no insertion creates one.
- Division by zero: average mode divides by a leaf count of zero if a walk adds weight without adding a leaf to an empty node, which raises in the source. `UpdateWeight`'s precondition excludes that case, and the walk never produces it.
- The insert precondition that a value is only ever re-inserted under the same prefix is not imposed. The model handles both cases: inserting a stored value under another prefix creates a second leaf, as the source does.
- Completion.AutocompleteLimited: does not state that the limited result holds the heaviest matches, because the source does not achieve that (see `Completion.LimitedNotHeaviest`).
