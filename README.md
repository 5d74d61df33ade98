# Span-tree leaf iteration and case-folded strings

This project models two small components of the Enso code base and proves properties about them.

**Span-tree leaf iteration.** In the IDE, the `LeafIterator` of the `span-tree` crate walks
a span tree depth-first. It yields the "leaves" of a *fragment* of the tree, each together with
its crumbs: the child indices that lead to it from the node where iteration starts.
- The `AllNodes` fragment descends into every node with children.
- The `ChainAndDirectChildren` fragment descends only into `Chained` nodes. It therefore yields
  the direct children of the chain.

The iterator keeps an explicit stack of `(node, child_being_visited)` frames plus a one-node
lookahead. The model is a class with those fields. Its methods are the source's `new`,
`next`, `make_dfs_step` and `descend_to_leaf`, each proved against a pure specification.
- `LeafSpec.LeafPaths` is the in-order list of paths that the policy (`CanDescend` plus
  "has children") leaves unexpanded.
- `LeafSpec` characterises `LeafPaths` independently: through `Reaches`, and through resolution
  of the crumbs with `GetDescendant`. It also proves that the paths are strictly increasing in
  lexicographic order and that none is a prefix of another.
- Draining a fresh iterator (`CollectCrumbs`) yields exactly `LeafPaths`.
- Both expected sequences from the crate's unit test are proved on the test's tree.

**Case-folded strings.** `CaseFoldedString` (the Java helper in `std-bits/base`) folds text
grapheme by grapheme. It records, for every UTF-16 code unit of the folded text, the index of
the grapheme it came from, plus one sentinel entry for the end position. It chooses ICU's
Turkic fold exactly for the locales `az` and `tr`.
- Text is a sequence of UTF-16 code units (`CodeUnit`, surrogate halves included), so lengths and indices count what Java's `length()` counts.
- The model takes the text already split into graphemes.
- ICU's folding of one grapheme is a function parameter.
- `Fold` is the source's loop, proved equal to recursive specifications.
- The lemmas locate every grapheme's folded form in the output and characterise the mapping:
  each grapheme's entries are a contiguous run as long as its folded form, the mapping never
  decreases, and the end maps to the grapheme count.
- Lookup fails exactly outside `0..length`.

## Model

| member | source | states |
|---|---|---|
| LeafSpec.CanDescend | app/gui/language/span-tree/src/iter.rs:94-99 | descent is allowed for every node under `AllNodes`, and only for `Chained` nodes under `ChainAndDirectChildren` |
| LeafSpec.LeafPathsCharacterization | app/gui/language/span-tree/src/iter.rs:31-39 | a path is yielded iff it starts at a child of the base and `Reaches` a node the policy does not expand, passing only through expanded nodes |
| LeafSpec.LeafPathsByResolution | app/gui/language/span-tree/src/iter.rs:83-99 | a path is yielded iff it is non-empty, resolves to a node that is not expanded, and every node strictly between the base and that node is expanded |
| LeafSpec.AllNodesYieldsChildlessDescendants | app/gui/language/span-tree/src/iter.rs:24-26 | under `AllNodes` the yielded paths are exactly the paths to childless descendants of the base |
| LeafSpec.ChainFragmentYieldsOpaqueNodes | app/gui/language/span-tree/src/iter.rs:27-28 | under `ChainAndDirectChildren` every yielded node is either not `Chained` or childless, and no extension of a yielded path is yielded |
| LeafSpec.LeafPathsPrefixFree | app/gui/language/span-tree/src/iter.rs:83-92 | no yielded path is a proper prefix of another yielded path |
| LeafSpec.LeafPathsStrictlyIncreasing | app/gui/language/span-tree/src/iter.rs:68-92 | the yielded paths come in strictly increasing lexicographic (depth-first) order, so none is yielded twice |
| LeafSpec.LeafPathsEmptyIffChildless | app/gui/language/span-tree/src/iter.rs:59-66 | iteration yields nothing iff the base has no children |
| LeafSpec.LeafPathsNeverEmpty | app/gui/language/span-tree/src/iter.rs:59-63 | the base itself is never yielded: every path starts with the index of one of its children |
| LeafSpec.BaseKindIgnored | app/gui/language/span-tree/src/iter.rs:59-64 | the base is always entered, whatever its kind, so its kind does not change what is yielded |
| LeafSpec.LeafCountBound | app/gui/language/span-tree/src/iter.rs:68-92 | at most as many items are yielded as there are nodes strictly below the base |
| LeafIteration.StackResolves | app/gui/language/span-tree/src/iter.rs:46-47 | in a consistent stack, the crumbs read off the frames resolve from the base to the child being visited by the top frame |
| LeafIteration.LeafIterator.constructor | app/gui/language/span-tree/src/iter.rs:59-66 | a new iterator is consistent, its lookahead is a leaf, and the items still pending are exactly `LeafPaths` of the base |
| LeafIteration.LeafIterator.MakeDfsStep | app/gui/language/span-tree/src/iter.rs:68-81 | with no lookahead nothing changes; otherwise the pending items become those after the current leaf, and exhausted frames are popped until one advances to its next child |
| LeafIteration.LeafIterator.DescendToLeaf | app/gui/language/span-tree/src/iter.rs:83-92 | the pending items are unchanged, the lookahead becomes a leaf, and frames at child 0 are only pushed, never popped |
| LeafIteration.LeafIterator.Next | app/gui/language/span-tree/src/iter.rs:44-54 | yields nothing iff nothing is pending, and that is sticky; otherwise it yields the first pending path with the node it resolves to and removes that path from the pending items |
| LeafIteration.CollectCrumbs | app/gui/language/span-tree/src/iter.rs:169 | draining a fresh iterator collects exactly `LeafPaths` of the base |
| LeafIteratingExample.AllNodesOnSample | app/gui/language/span-tree/src/iter.rs:124-169 | on the test tree, `AllNodes` yields the ten paths the test expects |
| LeafIteratingExample.ChainAndDirectChildrenOnSample | app/gui/language/span-tree/src/iter.rs:171-183 | on the test tree, `ChainAndDirectChildren` yields the nine paths the test expects |
| LeafIteratingExample.LeafIterating | app/gui/language/span-tree/src/iter.rs:117-184 | running the iterator with both fragments on the test tree collects the expected sequences |
| CaseFolding.CaseFoldAlgorithmForLocale | std-bits/base/src/main/java/org/enso/base/text/CaseFoldedString.java:120-134 | the Turkic fold is chosen iff the language is `az` or `tr` and neither country nor variant is set |
| CaseFolding.Fold | std-bits/base/src/main/java/org/enso/base/text/CaseFoldedString.java:72-103 | the result is the concatenation of the folded graphemes, with a mapping that has one run of each grapheme's index per folded code unit, then the grapheme count |
| CaseFolding.CodeUnitToGraphemeIndex | std-bits/base/src/main/java/org/enso/base/text/CaseFoldedString.java:49-54 | lookup fails with `IndexOutOfBounds(i)` iff `i < 0` or `i` exceeds the folded length; otherwise it returns the mapping's entry at `i` |
| CaseFolding.MappingLength | std-bits/base/src/main/java/org/enso/base/text/CaseFoldedString.java:18-25 | the mapping has exactly one entry more than the folded string has code units |
| CaseFolding.FoldAllSplit | std-bits/base/src/main/java/org/enso/base/text/CaseFoldedString.java:79-95 | folding a prefix of the graphemes gives a prefix of the folded string, and the rest folds to the rest |
| CaseFolding.FoldedGraphemeInPlace | std-bits/base/src/main/java/org/enso/base/text/CaseFoldedString.java:85-95 | grapheme `k`'s folded form occupies exactly the folded string between its start and the next grapheme's start |
| CaseFolding.StartMonotone | std-bits/base/src/main/java/org/enso/base/text/CaseFoldedString.java:85-95 | grapheme start offsets never decrease |
| CaseFolding.RunsLocate | std-bits/base/src/main/java/org/enso/base/text/CaseFoldedString.java:89-91 | a code unit's entry is `k` iff the code unit lies within grapheme `k`'s folded form, and every such entry names an existing grapheme |
| CaseFolding.MappingShape | std-bits/base/src/main/java/org/enso/base/text/CaseFoldedString.java:89-99 | the mapping never decreases; every entry but the last names a grapheme, and the last is the grapheme count |
| CaseFolding.CodeUnitLookup | std-bits/base/src/main/java/org/enso/base/text/CaseFoldedString.java:39-54 | on a folded text, out-of-range lookups fail, the end position maps to the grapheme count, and every code unit maps to the grapheme whose folded form contains it |
| CaseFolding.SurrogatePairMapping | std-bits/base/src/main/java/org/enso/base/text/CaseFoldedString.java:85-99 | a grapheme outside the Basic Multilingual Plane (a surrogate pair) owns two mapping entries: with an identity fold, U+1F600 yields the mapping `[0, 0, 1]` |

## Left out

- Spans, offsets, payloads, AST crumbs and node kinds other than `Chained` are not modelled. A node is a kind (`Chained` or other) and its children. Crumbs are child indices.
- Borrowing and lifetimes are not modelled. The iterator holds tree values, and the base is a plain node rather than a `node::Ref`.
- `get_descendant` is defined in a file that is not part of this model. It is modelled as resolution of child indices (`SpanNode.GetDescendant`). Its failure makes `next` yield `None`, but `LeafIteration.StackResolves` proves that resolution always succeeds.
- `TreeBuilder`, `leaf_iter` and `chain_children_iter` are defined elsewhere. The test tree is written out as a value, and both iterators are `CollectCrumbs` with the respective fragment.
- A base with no children: the code yields nothing, and the base itself is never yielded. The model follows the code (`LeafSpec.LeafPathsEmptyIffChildless`).
- ICU grapheme segmentation (`BreakIterator`) is not modelled. `Fold` receives the text already split into graphemes.
- ICU case folding (`CaseMap.fold()` and `.turkic()`) is not modelled. It is the parameter `caseMap`, applied to one grapheme at a time.
- `simpleFold` is left out: it is a single ICU call on the whole string with no logic of its own.
- `StringSlice` and `IntArrayBuilder` become sequence slicing and appending.
- Java's 32-bit `int` width for indices and lengths is not modelled. Code units are kept to 0..0xFFFF, but lengths are unbounded. Overflow would need more than 2^31 code units.
- `getFoldedString` is the `foldedString` field of `CaseFolding.FoldedText` and has no member of its own.
- `IntArrayBuilder.unsafeGetStorageAndInvalidateTheBuilder` is not part of this model. The model's mapping is exactly the appended entries. The returned storage may be longer, but lookups past the folded length are rejected before they reach the array.
- `CaseFolding.Locale` compares only language, country and variant. Script and extensions are not modelled. As in Java, `tr-TR` is not equal to `tr` and selects the default fold.
- `codeUnitToGraphemeIndex` accepts `0..length` as the code does. Its documentation mentions `length+1` inclusive, but that index throws.
