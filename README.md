# PredictiveKeyboard dictionary tree, modelled in Dafny

The model covers the dictionary tree of PredictiveKeyboard. It is a trie in which:
- each node holds an insertion-ordered map from a character to a child node;
- each node holds an optional popularity, whose presence means a word ends at that node.

It also covers the `Word` record whose `compareTo` ranks predictions.

The project proves properties of these operations:
- the mutations `insert` and `remove`;
- the queries `contains`, `predict(prefix, n)` and `predict(prefix)`;
- the aggregates `size`, `height`, `maximumBranching`, `numLeaves`, `longestWord` and `allWords`.

Layout:

- `wrappers.dfy`: `Option` and `Result`.
- `linked_map.dfy`: the `LinkedHashMap` of children as a sequence of (key, child) pairs.
  - `Put` replaces an existing key in place and appends a new key at the end.
  - `RemoveKey` deletes a key and keeps the order of the others.
- `word.dfy`: `Word`, its accessors, and `compareTo` as a total preorder in which the more popular word sorts first.
- `ranking.dfy`: `Collections.sort` with that comparator, as a stable insertion sort. It is proved to be:
  - a permutation;
  - non-increasing in popularity;
  - stable.
- `trie.dfy`: the tree as a value `Node(popularity, children)`. It holds the functions that define what each operation computes:
  - `InsertPath`, `RemovePath` and `PredictPath`;
  - the aggregates, as left folds over the children in insertion order, matching the source's `for` loops.
- `traversal.dfy`: the loops of the source, each proved equal to its function:
  - the two breadth-first searches (`maximumBranching`, `height`) over a queue;
  - `allWordsRecur` appending to an output list;
  - `wordToString`;
  - the loops inside `size`, `numLeavesRecur` and `longestWordRecur`.
- `dictionary_tree.dfy`: class `DictionaryTree`.
  - Its fields are the root's `children` and `popularity`.
  - Its methods walk down with a current node and an index `i`, as the source does.
  - `Insert` and `Remove` walk the path (`WalkInsertion`, `WalkRemoval`) and then rebuild it from the bottom up (`WriteBackInsertion`, `WriteBackRemoval`).
  - Each method is proved to produce the tree and result that the function in `trie.dfy` defines.
- `trie_walk.dfy`, `insert_facts.dfy`, `remove_facts.dfy`, `query_facts.dfy`, `aggregate_facts.dfy`, `leaf_facts.dfy` and `case_facts.dfy`: lemmas about those functions.
- `scenarios.dfy`: small concrete trees that show how `remove` and `contains` behave, and the height cases of the unit tests.

Four invariants appear in the lemmas:
- `Valid`: every child map has distinct keys.
- `NoDeadNodes`: every node below the root ends a word or has a child.
- `Live`: the same condition, stated for a subtree.
- `NoCapitals`: no edge is an ASCII capital letter.

Both `insert` and `remove` preserve `Valid`, `NoDeadNodes` and `NoCapitals`; `insert` keeps `NoCapitals` because it lower-cases its word. The class states all three as its `Invariant`, which the constructor establishes and `Insert` and `Remove` keep, so the lemmas that need them apply to every tree the class can hold. With `NoCapitals`, every word the tree holds is lower case, so after `remove(word)` the tree contains neither `word` nor its lower-cased form.

`allWordsRecur` lists every stored word exactly once (`QueryFacts.AllWordsDistinct`), so `predict(prefix, n)` returns n different words and `numLeaves` counts words rather than list entries.

Where the code and its documentation disagree, the model follows the code:

- `insert(word, p)`: the doc comment says an existing popularity is overridden. The code keeps the larger of the old popularity and `p` (`setWord`).
  - So `insert(word)`, with popularity 0, does change a word whose stored popularity is negative: it raises it to 0.
- `remove(word)` cuts the edge to the first node on the path whose whole subtree branches at most once. It cuts without looking at which words that subtree holds. As a result:
  - other words can be lost: removing "a" from {"a", "ab"} removes both;
  - a word that is absent can still cause a cut, and the call returns true: removing "ax" from {"ab"} empties the tree;
  - inserting a word and removing it again need not give back the old size.

  When no such node lies on the path, `remove` clears the end node's marker and returns true, even if no word ended there. It returns false only when an edge on the path is missing, and then nothing changes. `Scenarios` states these cases on concrete trees.
- `contains(word)` does not lower-case its argument. Every other operation does.
- `predict(prefix, n)` returns `subList(0, n)` of the ranked completions. This raises an exception when `n` is negative or larger than the number of completions, so the documented "at most n" does not hold. The list is a `LinkedList`, whose `subList(0, n)` throws `IllegalArgumentException` for a negative `n` (the start index lies past the end index) and `IndexOutOfBoundsException` for an `n` beyond its length. The model returns `Failure(IllegalArgument)` and `Failure(IndexOutOfBounds)` in those cases.

## Model

| member | source | states |
|---|---|---|
| LinkedMap.IndexOf | skeleton-code/src/DictionaryTree.java:17 | the first position holding key k; None exactly when no entry has key k |
| LinkedMap.Get | skeleton-code/src/DictionaryTree.java:17 | get finds a value exactly when the key is one of the map's keys, and the pair (key, value) is an entry |
| LinkedMap.Put | skeleton-code/src/DictionaryTree.java:74 | afterwards get(k) is v and every other key's value is unchanged; a new key is appended after all others, an existing one keeps its place; keys stay distinct; putting the value already there changes nothing |
| LinkedMap.RemoveKey | skeleton-code/src/DictionaryTree.java:104 | with distinct keys, afterwards k is absent and every other key keeps its value; when k was present its entry is taken out and the other keys keep their order, otherwise nothing changes; no new entries |
| Words.AccessorsReturnConstructorArguments | skeleton-code/src/Word.java:7-18 | getWord and getPopularity return the constructor's arguments |
| Words.GetWord | skeleton-code/src/Word.java:12-14 | getWord: the word's string; AccessorsReturnConstructorArguments states that it is the constructor's argument |
| Words.GetPopularity | skeleton-code/src/Word.java:16-18 | getPopularity: the word's popularity; AccessorsReturnConstructorArguments states that it is the constructor's argument |
| Words.IntegerCompare | skeleton-code/src/Word.java:22 | Integer.compare: negative, zero or positive exactly when x is less than, equal to or greater than y, and always -1, 0 or 1 |
| Words.CompareTo | skeleton-code/src/Word.java:21-23 | negative exactly when a is more popular than b, positive exactly when less, zero exactly when equal |
| Words.CompareToAntisymmetric | skeleton-code/src/Word.java:21-23 | swapping the arguments negates the sign |
| Words.CompareToTotalPreorder | skeleton-code/src/Word.java:21-23 | the order "sorts no later than" is total, reflexive and transitive, and two words tie exactly when their popularities are equal |
| Ranking.InsertRanked | skeleton-code/src/DictionaryTree.java:178 | inserting a word adds exactly that word to the multiset of words |
| Ranking.InsertRankedSorted | skeleton-code/src/DictionaryTree.java:178 | inserting into a sequence of non-increasing popularity keeps it non-increasing |
| Ranking.SortByPopularity | skeleton-code/src/DictionaryTree.java:178 | the sorted words are a permutation of the input in non-increasing popularity |
| Ranking.SortIsStable | skeleton-code/src/DictionaryTree.java:178 | for every popularity, the words having it appear in the same order before and after sorting |
| Trie.Lower | skeleton-code/src/DictionaryTree.java:59 | same length, each character case-folded (ASCII letters); the result holds no capital, and a string is left unchanged exactly when it holds none |
| Trie.IsWord | skeleton-code/src/DictionaryTree.java:20-22 | isWord: the node carries a popularity; SetWord makes it hold and the end-marker clearing of remove (RemoveFacts.RemoveAtEnd) makes it fail |
| Trie.SetWord | skeleton-code/src/DictionaryTree.java:28-34 | the new popularity is present, at least p and at least the old one, and is p or the old value; the flag is true exactly when it changed |
| Trie.NodeAt | skeleton-code/src/DictionaryTree.java:128-136 | the walk that contains, remove and predict share: the node reached by following one edge per character, none at the first missing edge; Contains and Predict are proved to walk it |
| Trie.ContainsWord | skeleton-code/src/DictionaryTree.java:125-139 | contains: the path exists and its end node carries a popularity; DictionaryTree.Contains is proved to compute it |
| Trie.InsertPath | skeleton-code/src/DictionaryTree.java:57-83 | insert on a lower-cased word; InsertFacts states its meaning (w stored with the larger popularity, other words kept, edge order kept, node count, height, invariants) |
| Trie.RemovePath | skeleton-code/src/DictionaryTree.java:94-115 | remove as written, lookahead cut included, on a lower-cased word; RemoveFacts characterises its result and tree |
| Trie.PredictPath | skeleton-code/src/DictionaryTree.java:161-180 | predict(prefix, n) on a lower-cased prefix: empty for a missing path, IllegalArgument for a negative n, IndexOutOfBounds for an n beyond the completions, otherwise the first n ranked completions; PredictFailsIff, PredictTopK and PredictKeepsTraversalOrder state its meaning |
| Trie.PredictOnePath | skeleton-code/src/DictionaryTree.java:147-150 | predict(prefix): the head of predict(prefix, 1); PredictOneIsMostPopular, PredictOneOutcome and PredictOneNeverFails state its meaning |
| Trie.AllWordsRecur | skeleton-code/src/DictionaryTree.java:285-292 | the words at and below a node in preorder, children in insertion order; AllWordsSound and AllWordsComplete show it lists exactly the stored words |
| Trie.Size | skeleton-code/src/DictionaryTree.java:246-252 | the number of nodes, at least 1; InsertSize, RemoveAtCutSize and WordsAtMostNodes relate it to the operations |
| Trie.NumLeaves | skeleton-code/src/DictionaryTree.java:190-200 | the childless word nodes; LeafFacts.NumLeavesMeaning shows it counts the words that no other word extends |
| Trie.MaxBranching | skeleton-code/src/DictionaryTree.java:205-220 | the largest child count, at least the root's; BranchingBound and BranchingAttained characterise it |
| Trie.Height | skeleton-code/src/DictionaryTree.java:225-241 | the edges on a longest branch; HeightBound and HeightAttained characterise it |
| Trie.LongestWordRecur | skeleton-code/src/DictionaryTree.java:265-274 | the prefix followed by the first longest branch; LongestWordLength and LongestAmongFirstLongest characterise it |
| Trie.WordStrings | skeleton-code/src/DictionaryTree.java:294-300 | one string per word, the i-th being the i-th word's string |
| Traversal.MaximumBranchingBfs | skeleton-code/src/DictionaryTree.java:205-220 | the breadth-first loop returns the largest child count in the tree as defined recursively |
| Traversal.HeightBfs | skeleton-code/src/DictionaryTree.java:225-241 | the level-by-level loop starting at depth -1 returns the height defined recursively (0 for a single node) |
| Traversal.CollectWords | skeleton-code/src/DictionaryTree.java:285-292 | appends to the list exactly the words below the node in preorder, children in insertion order |
| Traversal.WordsToStrings | skeleton-code/src/DictionaryTree.java:294-300 | the loop yields the words' strings in order |
| Traversal.CountNodes | skeleton-code/src/DictionaryTree.java:246-252 | the loop computes one plus the sizes of the children |
| Traversal.CountLeaves | skeleton-code/src/DictionaryTree.java:190-200 | the loop computes the number of childless word nodes |
| Traversal.LongestBranch | skeleton-code/src/DictionaryTree.java:265-274 | the loop keeps the longest child branch, replacing it only when strictly longer |
| Dictionary.DictionaryTree.constructor | skeleton-code/src/DictionaryTree.java:17-18 | a new tree has no popularity and no children, and satisfies the invariant |
| Dictionary.DictionaryTree.InsertDefault | skeleton-code/src/DictionaryTree.java:43-45 | insert(word) is insert(word, 0) |
| Dictionary.DictionaryTree.Insert | skeleton-code/src/DictionaryTree.java:57-83 | walking the existing edges, appending new nodes and applying setWord leaves exactly the tree InsertPath defines for the lower-cased word, and keeps the invariant |
| Dictionary.WalkInsertion | skeleton-code/src/DictionaryTree.java:60-78 | the walk of insert: path[k] is the node reached after k characters, an existing child or a new node |
| Dictionary.DictionaryTree.Remove | skeleton-code/src/DictionaryTree.java:94-115 | the walk with its lookahead cut leaves exactly the tree and result RemovePath defines for the lower-cased word; afterwards neither the word as given nor its lower-cased form is contained; the invariant is kept |
| Dictionary.WalkRemoval | skeleton-code/src/DictionaryTree.java:97-112 | the walk of remove passes only children that branch more than once, and stops at the first child that branches at most once, at a missing edge, or at the end of the word |
| Dictionary.RemoveStopsAtMissingEdge | skeleton-code/src/DictionaryTree.java:109-111 | a walk that reaches a missing edge without cutting returns false and changes nothing |
| Dictionary.WriteBackInsertion | skeleton-code/src/DictionaryTree.java:72-80 | applying setWord at the end of the walk and putting each changed node back into its parent gives the tree InsertPath defines, and keeps Valid, NoDeadNodes and NoCapitals |
| Dictionary.WriteBackRemoval | skeleton-code/src/DictionaryTree.java:99-114 | rebuilding the walked path around the changed node gives the tree RemovePath defines, and keeps Valid, NoDeadNodes and NoCapitals |
| Dictionary.DictionaryTree.Contains | skeleton-code/src/DictionaryTree.java:125-139 | true exactly when every character of the word, not lower-cased, has an edge and the end node carries a popularity |
| Dictionary.DictionaryTree.Predict | skeleton-code/src/DictionaryTree.java:161-180 | empty when the lower-cased prefix's path is missing; otherwise the first n ranked completions; IllegalArgument when n is negative, IndexOutOfBounds when n exceeds the number of completions |
| Dictionary.DictionaryTree.PredictOne | skeleton-code/src/DictionaryTree.java:147-150 | the head of predict(prefix, 1), or nothing |
| Dictionary.DictionaryTree.NumLeaves | skeleton-code/src/DictionaryTree.java:182-188 | the number of childless word nodes, which is the number of stored words that are not prefixes of any other stored word |
| Dictionary.DictionaryTree.MaximumBranching | skeleton-code/src/DictionaryTree.java:205 | the largest child count of any node |
| Dictionary.DictionaryTree.Height | skeleton-code/src/DictionaryTree.java:225 | the number of edges on a longest branch |
| Dictionary.DictionaryTree.Size | skeleton-code/src/DictionaryTree.java:246 | the number of nodes |
| Dictionary.DictionaryTree.LongestWord | skeleton-code/src/DictionaryTree.java:261-263 | longestWordRecur from the empty prefix |
| Dictionary.DictionaryTree.AllWords | skeleton-code/src/DictionaryTree.java:279-283 | the strings of all stored words in preorder, no string twice |
| InsertFacts.InsertStoresWord | skeleton-code/src/DictionaryTree.java:57-83 | after insert(w, p), w is contained and its popularity is p or the larger of p and the old one |
| InsertFacts.InsertKeepsOtherWords | skeleton-code/src/DictionaryTree.java:60-79 | every other word keeps its popularity, or stays absent |
| InsertFacts.InsertNoChange | skeleton-code/src/DictionaryTree.java:28-34 | inserting a word whose popularity is already at least p leaves the tree unchanged |
| InsertFacts.InsertDefaultNoChange | skeleton-code/src/DictionaryTree.java:43-45 | insert(w) on a word of non-negative popularity leaves the tree unchanged |
| InsertFacts.InsertIdempotent | skeleton-code/src/DictionaryTree.java:57-83 | repeating the same insert leaves the tree unchanged |
| InsertFacts.InsertSize | skeleton-code/src/DictionaryTree.java:60-78 | the node count grows by the length of w minus the length of the part of its path that already exists |
| InsertFacts.InsertKeepsEdgeOrder | skeleton-code/src/DictionaryTree.java:74 | at every existing node the old keys stay, in order, as a prefix of the new keys, and at most one key is added |
| InsertFacts.InsertPreservesValid | skeleton-code/src/DictionaryTree.java:74 | child keys stay distinct |
| InsertFacts.InsertPreservesNoDeadNodes | skeleton-code/src/DictionaryTree.java:72-79 | insert creates no node that is neither a word nor on the way to one |
| RemoveFacts.RemoveFalseIffAbsent | skeleton-code/src/DictionaryTree.java:99-112 | false exactly when the path is missing and no node before the gap branches at most once; then the tree is unchanged |
| RemoveFacts.RemoveClearsWord | skeleton-code/src/DictionaryTree.java:94-115 | afterwards w is not contained |
| RemoveFacts.RemoveAtCut | skeleton-code/src/DictionaryTree.java:101-106 | at the first cut (FirstCut: the first node on the path whose subtree branches at most once) the result is true and LosesPrefix holds: every word starting with the path down to the cut node is gone, and every other word keeps its popularity |
| RemoveFacts.RemoveAtCutSize | skeleton-code/src/DictionaryTree.java:104 | the tree loses exactly the nodes of the cut subtree |
| RemoveFacts.RemoveAtEnd | skeleton-code/src/DictionaryTree.java:113-114 | with an existing path and no cut, the result is true and LosesOnly holds: w loses its popularity and every other word keeps its own |
| RemoveFacts.RemoveAtEndSize | skeleton-code/src/DictionaryTree.java:113 | clearing the end marker removes no node |
| RemoveFacts.RemoveKeepsEdgeOrder | skeleton-code/src/DictionaryTree.java:104 | every node of the result is at the same path in the old tree, and its keys are the old keys in their old order with at most one taken out |
| RemoveFacts.RemovePreservesValid | skeleton-code/src/DictionaryTree.java:104 | child keys stay distinct |
| RemoveFacts.RemovePreservesNoDeadNodes | skeleton-code/src/DictionaryTree.java:103-106 | remove leaves no node that is neither a word nor on the way to one |
| RemoveFacts.InsertThenRemoveOnEmpty | skeleton-code/src/DictionaryTree.java:94-115 | insert then remove of the same word on a new tree gives back a new tree |
| RemoveFacts.InsertThenRemove | skeleton-code/src/DictionaryTree.java:94-115 | insert then remove of the same word returns true and leaves the word absent |
| QueryFacts.AllWordsSound | skeleton-code/src/DictionaryTree.java:285-292 | every listed word is the prefix followed by a path to a node holding that popularity |
| QueryFacts.AllWordsComplete | skeleton-code/src/DictionaryTree.java:285-292 | every stored word below the node is listed with its popularity |
| QueryFacts.AllWordsDistinct | skeleton-code/src/DictionaryTree.java:285-292 | in a tree with distinct keys no two listed words spell the same string, so each stored word is listed once |
| Ranking.PermutationKeepsDistinct | skeleton-code/src/DictionaryTree.java:178 | sorting, or any rearrangement, of a list of distinct words leaves them distinct |
| QueryFacts.PredictFailsIff | skeleton-code/src/DictionaryTree.java:179 | predict fails exactly when the prefix's path exists and n is negative or exceeds the number of completions; the failure is IllegalArgument exactly for a negative n and IndexOutOfBounds exactly for an n beyond the completions |
| QueryFacts.PredictTopK | skeleton-code/src/DictionaryTree.java:161-180 | exactly n results when the path exists, none otherwise; no two results are the same word; each starts with the prefix and is a word; popularity never increases along the result; no omitted completion is more popular than a returned one |
| QueryFacts.PredictKeepsTraversalOrder | skeleton-code/src/DictionaryTree.java:176-179 | words of equal popularity are returned in the order the preorder traversal found them |
| QueryFacts.PredictOneIsMostPopular | skeleton-code/src/DictionaryTree.java:147-150 | a returned word starts with the prefix, is stored, and is at least as popular as every stored word with that prefix |
| QueryFacts.PredictOneOutcome | skeleton-code/src/DictionaryTree.java:147-150 | no result exactly when the path is missing; a failure exactly when the path leads to no word, and then always IndexOutOfBounds |
| QueryFacts.PredictOneNeverFails | skeleton-code/src/DictionaryTree.java:147-150 | in a tree without dead nodes a non-empty prefix never makes predict(prefix) fail |
| AggregateFacts.BranchingBound | skeleton-code/src/DictionaryTree.java:205-220 | no node has more children than maximumBranching |
| AggregateFacts.BranchingAttained | skeleton-code/src/DictionaryTree.java:205-220 | in a valid tree some node has exactly maximumBranching children |
| AggregateFacts.HeightBound | skeleton-code/src/DictionaryTree.java:225-241 | no path is longer than the height |
| AggregateFacts.HeightAttained | skeleton-code/src/DictionaryTree.java:225-241 | in a valid tree some path is exactly as long as the height |
| AggregateFacts.LongestAmongFirstLongest | skeleton-code/src/DictionaryTree.java:267-272 | the kept branch is a longest one and strictly longer than every branch of an earlier child |
| AggregateFacts.LongestWordLength | skeleton-code/src/DictionaryTree.java:265-274 | longestWordRecur adds exactly height characters to the prefix |
| AggregateFacts.LongestWordFacts | skeleton-code/src/DictionaryTree.java:261-274 | longestWord is as long as the height and spells a path to a childless node |
| AggregateFacts.LeavesAtMostWords | skeleton-code/src/DictionaryTree.java:190-200 | there are no more leaves than words |
| AggregateFacts.LiveHasLeaf | skeleton-code/src/DictionaryTree.java:190-200 | a subtree without dead nodes has at least one leaf |
| LeafFacts.NumLeavesMeaning | skeleton-code/src/DictionaryTree.java:182-200 | in a tree with distinct keys and no dead nodes, numLeaves is the number of listed words that no other listed word extends, and the list holds each word once |
| LeafFacts.NumLeavesCountsUnextended | skeleton-code/src/DictionaryTree.java:190-200 | the same for every subtree and prefix: the leaf count of the children's fold equals the count of unextended words in allWordsRecur's list |
| AggregateFacts.WordsAtMostNodes | skeleton-code/src/DictionaryTree.java:246-252 | there are no more words than nodes |
| AggregateFacts.SingleWordTree | skeleton-code/src/DictionaryTree.java:72-79 | one word inserted into a new tree gives a chain of length+1 nodes whose height is the word's length |
| AggregateFacts.InsertHeight | skeleton-code/src/DictionaryTree.java:57-83 | after insert(w) the height is the larger of the old height and the length of w |
| Scenarios.RemovePrefixDropsExtension | skeleton-code/src/DictionaryTree.java:101-106 | removing "a" from a tree holding "a" and "ab" removes both |
| Scenarios.RemoveAbsentWordDropsSibling | skeleton-code/src/DictionaryTree.java:101-106 | removing the absent "ax" from a tree holding "ab" returns true and empties the tree |
| Scenarios.InsertRemoveChangesSize | skeleton-code/src/DictionaryTree.java:101-106 | inserting then removing "ab" in a tree holding "a" leaves 1 node where there were 2 |
| Scenarios.ContainsIsCaseSensitive | skeleton-code/src/DictionaryTree.java:125-139 | after insert("A") the tree contains "a" but not "A" |
| Scenarios.HeightOfNewTreeAndWord | skeleton-code/src/DictionaryTreeTests.java:18-29 | a new tree has height 0, and after insert("word", 0) the height is 4 |
| CaseFacts.LowerIdempotent | skeleton-code/src/DictionaryTree.java:59 | lower-casing twice is lower-casing once |
| CaseFacts.InsertKeepsNoCapitals | skeleton-code/src/DictionaryTree.java:59-80 | insert of a lower-cased word adds no capital edge |
| CaseFacts.RemoveKeepsNoCapitals | skeleton-code/src/DictionaryTree.java:96-114 | remove adds no capital edge |
| CaseFacts.PathIsLowerCase | skeleton-code/src/DictionaryTree.java:125-137 | in a tree without capital edges every existing path spells a lower-case string |
| CaseFacts.ContainsOnlyLowerCase | skeleton-code/src/DictionaryTree.java:125-139 | in such a tree contains(w) holds only for a w that lower-casing leaves unchanged |
| CaseFacts.RemoveClearsRawWord | skeleton-code/src/DictionaryTree.java:94-115 | in such a tree, after remove(w) neither w as given nor its lower-cased form is contained |

## Left out

- `fold` (DictionaryTree.java:315-317) is left out: its body only throws, so there is no behaviour to model.
- Reading the word list, the interactive loop and printing (`CLI.java`) are I/O and are left out.
- `DictionaryNode.java` declares an interface without bodies and is not part of this model.
- Characters are Unicode scalar values, one tree edge each. Java's `String` indexes UTF-16 code units with `charAt` and `length`, so a character outside the Basic Multilingual Plane is one edge here but two edges (a surrogate pair) in the source, and `size`, `height` and the length of `longestWord` differ for such words.
- Java's `String.toLowerCase` is locale- and Unicode-aware and can change a string's length. `Trie.Lower` folds only the ASCII letters A-Z.
- Nodes are values, not shared objects. `Insert` and `Remove` mutate the class's root fields and rebuild the nodes on the walked path instead of updating deeper nodes in place. Aliasing between trees is not modelled.
- `LinkedBlockingQueue`, `LinkedHashMap` and `LinkedList` are modelled as sequences. Their internals and object identity are not modelled.
- Popularity, size and the counters are unbounded integers; Java's 32-bit wrap-around is not modelled.
- The null-argument `assert`s are not modelled: a Dafny string cannot be null.
- The `nPredict` test depends on a word-popularity file that is not part of this model.
- The unit tests of DictionaryTreeTests.java have no concrete lemma beyond the two height cases: evaluating `InsertPath` over literal words is beyond what the verifier does within its resource limit, already for the two words of `insertWithPopularity`. No lemma proves the concrete values those tests assert (size 19, height 9, the contains results, maximum branching 3, 5 leaves, the predicted words). The general lemmas that apply to each test are: `testSize` → `InsertFacts.InsertSize`; `testHeight` → `AggregateFacts.InsertHeight`; `testContains` → `InsertFacts.InsertStoresWord` and `InsertFacts.InsertKeepsOtherWords`; `testRemove` → `RemoveFacts.RemoveClearsWord` and `RemoveFacts.RemoveAtEnd`; `testMaxBranches` → `AggregateFacts.BranchingBound` and `AggregateFacts.BranchingAttained`; `testBranches` → `LeafFacts.NumLeavesMeaning`; `testPopularity` and `insertWithPopularity` → `InsertFacts.InsertStoresWord`, `InsertFacts.InsertKeepsOtherWords` and `QueryFacts.PredictOneIsMostPopular`.
