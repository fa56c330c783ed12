# Ternary search tree: a Dafny model

This project models the in-memory string index of `TernarySearchTree`. The
index is a ternary search tree: every node holds one character and three
links, low, middle and high. A node that ends an inserted term carries that
term's id (`-1` marks a node that ends no term). Beside the tree the object
keeps:

- the id -> term table;
- a node counter;
- two groups of search-cost statistics, one for searches that found
  something and one for searches that found nothing;
- the running call counter of the neighbour search.

The model covers these operations:

- `add(term, ref)`, with its descent loop and the mid-linked chain it hangs
  off the tree.
- `contains(term)`, the exact-match walk that records its cost.
- `setStats`, `getTotalNodes` and `height`.
- The three approximate searches: `nearNeighbours`, `nearSearchWithSuffix`
  and `beginWith`. These are three copies of one recursive algorithm with a
  terminal regime, an early-accept regime and a general regime.
- `returnAllResults`.
- The reader of the pre-order index format: `getNextElement` and
  `readSubTree`.

How each part is modelled:

- **The node tree is a value.** `TernarySearchNode.Tree` is `Nil | Node(ch,
  ref, left, middle, right)`. The node class's setters become functions
  that return the updated node.
- **The owning object is a class.** `TernarySearchTree.TernarySearchTree`
  has the Java fields. Its methods state the new state through the
  specification functions of `TreeSpec` (`Insert`, `NewNodes`, `Member`,
  `Probe`) and `ApproximateSearch` (`Search`, `NeighbourCalls`).
- **What `add` preserves.** `add` keeps a well-formedness invariant: the
  node counter is the tree's size, every id in the tree has a term, and
  siblings are ordered by character.
- **What `add` changes.** Adding a non-empty term with an id other than -1
  to a tree whose nodes without a mid child all carry an id makes the term a
  member, keeps every other member and adds no other (`InsertMembers`,
  `TernarySearchTree.TernarySearchTree.Add`). Both conditions are needed:
  after `add("ab", -1)` and then `add("ab", 5)`, the 'b' node keeps id -1,
  so `contains("ab")` is false.
- **The searches.** They are proved sound: they report only terms of ids in
  the tree, plus overflow records for the suffix variant. The suffix and
  prefix variants report at least what the neighbour search reports. The
  suffix variant reports nothing beyond the neighbour search's terms and
  overflow records, and a lemma states at which nodes it emits a record.
  With no edit budget, the neighbour and prefix searches are characterised
  by the node the exact walk stops at. The suffix variant is not: it can
  emit an overflow record where the exact walk falls off the tree
  (`SearchExamples.SuffixRecordAtZero`).
- **The cost statistics.** A ghost sequence of recorded costs backs them,
  and they are proved to be its minimum, maximum, sum and length.
- **The reader.** It is proved to read back any encodable tree. Worked
  examples fix how it handles concrete inputs.

Where the code does not do what its Javadoc says or a reader would expect,
the model follows the code:

- **Early accept stops the descent.** The early-accept branch is entered
  at any node that carries an id and has a mid child when the rest of the
  word after this node is within budget. The character is compared only
  inside the branch, and the mid subtree is not searched in either outcome.
  - The Javadoc of `nearNeighbours` (src/TernarySearchTree.java:337-338)
    says it returns all the words within the edit distance, and the exact
    match at distance 0. But `nearNeighbours("cat", 1)` over
    {"ca" -> 1, "cat" -> 2} reports only "ca"
    (`SearchExamples.NeighbourStopsEarly`).
  - The node can also be rejected there, and its mid subtree is still
    skipped: when the character differs and the rest of the word from this
    node exceeds the budget. So `nearNeighbours("cb", 1)` over
    {"a" -> 1, "ab" -> 2} reports nothing, although "ab" is one
    substitution away (`SearchExamples.MismatchSkipsMiddle`).
  - The Javadoc of `beginWith` (src/TernarySearchTree.java:518) calls it a
    prefix search for auto-complete, which would report every term with
    prefix `word` at distance 0. But `beginWith("ca", 0)` reports only "ca"
    (`SearchExamples.PrefixStopsEarly`).
- **A term that ends on a leaf.** If the term ends on a node without a mid
  child, `add` leaves the tree unchanged, so that node keeps its old id
  (`SearchExamples.ReAddKeepsId`). The table still records the new id.
- **The empty term.** It is not a no-op in the code. On an empty tree it is
  entered in the table. On a non-empty tree the loop dereferences a null
  parent, so `Add` requires that this case does not occur.
- **A reused id.** Nothing ties the table to the tree: `add` enters the
  term under `ref` in the table (:205) whatever the id names already, and
  the searches report the table's term for a node's id. After
  `add("cat", 1)` and `add("dog", 1)`, "cat" is still a member, but
  `nearNeighbours("cat", 0)` reports "dog", not the exact match the Javadoc
  at :337-338 promises (`SearchExamples.ReusedIdReportsOther`). When every
  id is fresh, each id in the tree maps to the term its node spells
  (`TermLabels.Labelled`, kept by `Add`). Then the neighbour search with no
  budget reports exactly the word if it is a member and nothing otherwise,
  and every term the prefix search reports with no budget begins with the
  word (`TermLabels.NeighbourExactAtZero`, `TermLabels.PrefixBeginsAtZero`).
- **A mis-shaped index text.** The text "a 5 # b 9 # # #", read as 'a'
  (id 5) with high child 'b' (id 9), does not parse: 'b' becomes the
  middle child of 'a', and the high entry of 'a' meets the end of the
  input (`IndexReader.ReadMissingEntry`). The text "a 5 # # b 9 # # #"
  gives that tree (`IndexReader.ReadExample`).

## Model

| member | source | states |
|---|---|---|
| TernarySearchNode.NewNode | src/TernarySearchNode.java:15-19 | a new node holds the character, id -1 and no children |
| TernarySearchNode.SetComplete | src/TernarySearchNode.java:24-27 | only the id changes, to `ref` |
| TernarySearchNode.SetLeft | src/TernarySearchNode.java:39-42 | only the low link changes |
| TernarySearchNode.SetMiddle | src/TernarySearchNode.java:49-52 | only the mid link changes |
| TernarySearchNode.SetRight | src/TernarySearchNode.java:59-62 | only the high link changes |
| TreeSpec.Height | src/TernarySearchTree.java:315-325 | 0 exactly for the empty tree; otherwise one more than the tallest child |
| TreeSpec.Locate | src/TernarySearchTree.java:224-264 | the node the exact walk ends on holds the word's last character and lies inside the tree |
| TreeSpec.Member | src/TernarySearchTree.java:213-272 | only a non-empty word of a non-empty tree can be found, and then the exact walk ends on a node; its meaning as "some path spells the word" is `InsertProperties.MemberIffSpells` |
| TreeSpec.Probe | src/TernarySearchTree.java:215-264 | the number of nodes `contains` visits is 0 only for the empty tree and never more than the tree's height |
| TreeSpec.NewNodes | src/TernarySearchTree.java:172-202 | `add` allocates at most one node per character of the term |
| TreeSpec.Chain | src/TernarySearchTree.java:172-204 | the chain for a suffix is empty only for the empty suffix, and otherwise starts with its first character and has no low or high links |
| TreeSpec.Insert | src/TernarySearchTree.java:127-204 | `add` of a non-empty term leaves a non-empty tree and keeps the root's character; its members, size, order and ids are stated in `InsertProperties` |
| TreeSpec.ChainShape | src/TernarySearchTree.java:196-203 | the chain for a suffix has one node per character, is that tall, is ordered, starts with its first character and carries only `ref` |
| InsertProperties.ChainMembers | src/TernarySearchTree.java:172-203 | a fresh chain holds exactly its own term (when the id is not -1) |
| InsertProperties.InsertContains | src/TernarySearchTree.java:127-206 | after `add(s, r)` the term `s` is a member |
| InsertProperties.InsertKeeps | src/TernarySearchTree.java:127-206 | `add` removes no member |
| InsertProperties.InsertAddsOnly | src/TernarySearchTree.java:127-206 | `add` makes no term other than `s` a member |
| InsertProperties.InsertMembers | src/TernarySearchTree.java:127-206 | the members after `add(s, r)` are exactly the old members and `s` |
| InsertProperties.InsertSize | src/TernarySearchTree.java:172-202 | the tree grows by exactly the nodes allocated, and none are allocated iff the walk ends on an existing node |
| InsertProperties.InsertOrdered | src/TernarySearchTree.java:154-169 | `add` keeps every low subtree below and every high subtree above its node's character |
| InsertProperties.InsertLeavesComplete | src/TernarySearchTree.java:197-203 | `add` keeps every node without a mid child carrying an id |
| InsertProperties.ChainLeaves | src/TernarySearchTree.java:197-203 | the last node of a new chain carries the id |
| InsertProperties.InsertRefs | src/TernarySearchTree.java:127-206 | `add(s, r)` introduces no id other than `r` |
| InsertProperties.InsertHeight | src/TernarySearchTree.java:172-202 | `add` never lowers the tree and raises it by at most the nodes allocated |
| InsertProperties.InsertHangsChain | src/TernarySearchTree.java:172-204 | when the walk falls off, `add` puts the chain of the unmatched suffix in the empty slot the walk reached |
| InsertProperties.InsertMarksNode | src/TernarySearchTree.java:143-151 | when the term runs out, `add` gives the node reached the id if it has a mid child, and otherwise changes nothing |
| InsertProperties.HeightAtMostSize | src/TernarySearchTree.java:304-334 | the height is at most the node count |
| InsertProperties.SpellsFirstChar | src/TernarySearchTree.java:154-169 | a spelled term starts with one of the characters on the top level |
| InsertProperties.MemberIffSpells | src/TernarySearchTree.java:213-272 | on an ordered tree the exact walk finds a term iff some path spells it |
| InsertProperties.InsertSpells | src/TernarySearchTree.java:127-206 | the terms spelled after `add(s, r)` are the old ones and `s` |
| InsertProperties.Turn | src/TernarySearchTree.java:154-169 | the walk goes down the middle exactly when the characters match |
| InsertProperties.WalkStep | src/TernarySearchTree.java:152-169 | one loop step of `add` keeps the walk's relation to the final descent, allocation count and end node |
| InsertProperties.FallsOff | src/TernarySearchTree.java:172-204 | when the loop falls off the tree, hanging the chain at the parent's slot (or as the root) gives the inserted tree |
| InsertProperties.RunsOut | src/TernarySearchTree.java:143-151 | when the term runs out, marking the parent (or leaving a mid-less node alone) gives the inserted tree |
| ApproximateSearch.NeighbourCalls | src/TernarySearchTree.java:349-412 | each search counts at least its own call |
| ApproximateSearch.AllResults | src/TernarySearchTree.java:420-433 | `returnAllResults` reports only terms from the table |
| ApproximateSearch.Search | src/TernarySearchTree.java:349-597 | the neighbour and prefix searches report only terms from the table |
| ApproximateSearch.AtNode | src/TernarySearchTree.java:361-406 | the terminal, early-accept and general regimes at one node of the neighbour and prefix searches report only terms from the table |
| SearchProperties.AllResultsImage | src/TernarySearchTree.java:420-433 | `returnAllResults` reports exactly the terms of the ids in the subtree |
| SearchProperties.SearchSound | src/TernarySearchTree.java:349-597 | a search reports only terms of ids in the searched subtree, plus overflow records built from them for the suffix variant |
| SearchProperties.AtNodeSound | src/TernarySearchTree.java:440-515 | the terminal, early-accept and general regimes at one node add nothing outside that bound |
| SearchProperties.NeighbourWithin | src/TernarySearchTree.java:523-597 | the suffix and prefix searches report everything the neighbour search reports |
| SearchProperties.SuffixWithin | src/TernarySearchTree.java:440-515 | the suffix search reports only what the neighbour search reports plus overflow records built from the subtree's ids |
| SearchProperties.AtNodeWithin | src/TernarySearchTree.java:451-509 | at one node the suffix search adds only what the neighbour search adds plus such records |
| SearchProperties.OverflowAtLeaf | src/TernarySearchTree.java:451-484 | at a node without a mid child, the suffix search adds exactly what the neighbour search adds, plus the record "term,unmatched suffix,budget" iff the node carries an id and more of the word is left than the budget |
| SearchProperties.NoOverflowOnEarlyAccept | src/TernarySearchTree.java:485-496 | an early-accepted node adds the same in the suffix search as in the neighbour search |
| SearchProperties.MismatchAtZero | src/TernarySearchTree.java:394-405 | with no budget, in the neighbour and prefix searches (not the suffix search), a node whose character differs from the word's adds nothing itself |
| SearchProperties.NeighbourAtZero | src/TernarySearchTree.java:343-412 | with no budget the neighbour search reports the term of the exact walk's end node if the word is a member, and nothing otherwise |
| SearchProperties.PrefixAtZero | src/TernarySearchTree.java:527-597 | with no budget the prefix search reports the end node's own term, or if it has none every term below its mid link |
| SearchProperties.PrefixCollectsSubtree | src/TernarySearchTree.java:533-538 | once the word is used up, the prefix search reports every term of the subtree |
| TermLabels.LabelsKept | src/TernarySearchTree.java:205 | entering a term under an id the table does not hold yet (or -1) leaves every node's id mapped to the same term |
| TermLabels.ChainLabelled | src/TernarySearchTree.java:172-205 | the chain `add` hangs, with its term entered under its id, maps its last node's id to the whole term |
| TermLabels.InsertLabelled | src/TernarySearchTree.java:127-206 | `add` with an id the table does not hold yet keeps every id in the tree mapped to the term its node spells |
| TermLabels.LocateLabelled | src/TernarySearchTree.java:213-272 | on a labelled tree the exact walk's end node has the word as its term, and everything below its mid link has terms that extend the word |
| TermLabels.LabelsBeginWith | src/TernarySearchTree.java:420-433 | every id of a subtree labelled from a prefix has a term, and that term begins with the prefix |
| TermLabels.NeighbourExactAtZero | src/TernarySearchTree.java:337-412 | on a labelled tree, the neighbour search with no budget reports the word if it is a member and nothing otherwise |
| TermLabels.PrefixBeginsAtZero | src/TernarySearchTree.java:518-597 | on a labelled tree, every term the prefix search reports with no budget begins with the word |
| SearchCost.LowestIsMinimum | src/TernarySearchTree.java:278-281 | the minimum field is at most every recorded cost and is one of them or `Integer.MAX_VALUE` |
| SearchCost.HighestIsMaximum | src/TernarySearchTree.java:282-285 | the maximum field is at least every recorded cost and is one of them or 0 |
| SearchCost.Record | src/TernarySearchTree.java:274-303 | recording a cost lowers the minimum, raises the maximum and adds to the total exactly as `setStats` does |
| SearchCost.TotalBetween | src/TernarySearchTree.java:286-287 | the total lies between count times minimum and count times maximum, so the average lies between them |
| IntText.DigitChar | src/TernarySearchTree.java:479 | the digit character of a value below 10 reads back as that value |
| IntText.NatDigits | src/TernarySearchTree.java:479 | the digits of a number read back as that number |
| IntText.Decimal | src/TernarySearchTree.java:479 | the decimal text of an int is never empty and holds no space or comma |
| IntText.ParseInt | src/TernarySearchTree.java:115 | `Integer.parseInt` yields only 32-bit values |
| IntText.ParseDecimal | src/TernarySearchTree.java:115 | parsing the decimal text of any 32-bit int gives it back |
| IndexReader.TokenTail | src/TernarySearchTree.java:83-93 | the rest of a token and what follows are no longer than the input |
| IndexReader.NextToken | src/TernarySearchTree.java:79-95 | the token is empty exactly at the end of the input, and reading consumes something |
| IndexReader.TokenTailSplits | src/TernarySearchTree.java:83-93 | the rest of a token holds no space, and the input splits at one space or at its end |
| IndexReader.NextTokenSplits | src/TernarySearchTree.java:79-95 | only the first character of a token may be a space, and the input is the token, a space and the rest |
| IndexReader.GetNextElement | src/TernarySearchTree.java:79-95 | the character loop returns the token and leaves the rest of the input |
| IndexReader.ReadSubTree | src/TernarySearchTree.java:96-120 | a successful read consumes input |
| IndexReader.TokenTailWord | src/TernarySearchTree.java:83-93 | a spaceless word followed by a space is read whole |
| IndexReader.NextTokenWord | src/TernarySearchTree.java:79-95 | a token followed by a space is read back whole, whatever follows |
| IndexReader.ReadNode | src/TernarySearchTree.java:110-119 | a node is its character, its id and its low, middle and high entries |
| IndexReader.ReadEncoding | src/TernarySearchTree.java:96-120 | the pre-order text of any encodable tree reads back as that tree and leaves the rest untouched |
| IndexReader.ReadHash | src/TernarySearchTree.java:100-103 | "#" followed by a space is an absent node |
| IndexReader.ReadLastHash | src/TernarySearchTree.java:100-103 | a final "#" at the end of the input is an absent node |
| IndexReader.ReadExampleHigh | src/TernarySearchTree.java:96-120 | "b 9 # # #" reads as a leaf 'b' with id 9 |
| IndexReader.ReadExample | src/TernarySearchTree.java:96-120 | "a 5 # # b 9 # # #" reads as 'a' (id 5) whose high child is 'b' (id 9) |
| IndexReader.ReadNodeHighFails | src/TernarySearchTree.java:118 | a failure reading the high entry fails the whole node |
| IndexReader.ReadEmpty | src/TernarySearchTree.java:98-110 | an empty input reaches `charAt(0)` on an empty token and fails |
| IndexReader.ReadMissingEntry | src/TernarySearchTree.java:96-120 | "a 5 # b 9 # # #" fails at the end of the input |
| IndexReader.ReadBadRef | src/TernarySearchTree.java:112-115 | a non-numeric id token fails the read |
| IndexReader.ReadLongToken | src/TernarySearchTree.java:104-108 | a token of more than one character is an absent node, and no id token is read after it |
| TernarySearchTree.RecordKeepsSummary | src/TernarySearchTree.java:274-303 | one `setStats` step keeps a statistics group the minimum, maximum, total and count of its recorded costs |
| TernarySearchTree.AddWellFormed | src/TernarySearchTree.java:127-206 | `add` keeps the node counter equal to the tree size, every tree id in the table, and siblings ordered |
| TernarySearchTree.AddMembers | src/TernarySearchTree.java:127-206 | for a non-empty term and an id other than -1 on a tree whose mid-less nodes carry ids, `add` keeps that so and its members become the old ones and the term |
| TernarySearchTree.AddLabelled | src/TernarySearchTree.java:127-206 | `add` with an id the table does not hold yet (or -1), followed by entering the term under it, keeps every id in the tree mapped to the term its node spells |
| TernarySearchTree.TernarySearchTree.constructor | src/TernarySearchTree.java:19-60 | a new index is empty, with no costs recorded and the statistics at their initial values; its (empty) tree is labelled by the table |
| TernarySearchTree.TernarySearchTree.Add | src/TernarySearchTree.java:127-206 | the new tree is the inserted tree, the table maps `ref` to the term, and the counter grows by the nodes allocated; a null term changes nothing; the invariant is kept; with an id other than -1 on a tree whose mid-less nodes carry ids, the term becomes a member and the other members stay the same; with an id the table does not hold yet (or -1), every id in the tree stays mapped to the term its node spells |
| TernarySearchTree.TernarySearchTree.Place | src/TernarySearchTree.java:135-204 | the tree part of `add` leaves the inserted tree and counts the nodes allocated, changing nothing else |
| TernarySearchTree.TernarySearchTree.Walk | src/TernarySearchTree.java:136-170 | the descent loop ends either off the tree, with the unmatched suffix and the parent slot, or with the term used up at the node reached |
| TernarySearchTree.TernarySearchTree.HangChain | src/TernarySearchTree.java:172-204 | the chain for the unmatched suffix is attached at the parent's slot or becomes the root, and one node is counted per character |
| TernarySearchTree.TernarySearchTree.SetStats | src/TernarySearchTree.java:274-303 | the cost is recorded under its outcome only, and the fields stay the summary of the recorded costs |
| TernarySearchTree.TernarySearchTree.Contains | src/TernarySearchTree.java:213-272 | the answer is true iff the term is a member; the number of nodes visited is recorded under the answer; null and empty terms record nothing |
| TernarySearchTree.TernarySearchTree.ExactWalk | src/TernarySearchTree.java:221-271 | the loop of `contains` answers membership and visits as many nodes as `Probe`, at most the tree's height |
| TernarySearchTree.TernarySearchTree.GetTotalNodes | src/TernarySearchTree.java:304-307 | the counter is the number of nodes in the tree |
| TernarySearchTree.TernarySearchTree.Height | src/TernarySearchTree.java:315-334 | the height of the tree: at most the node count, and 0 only for the empty tree |
| TernarySearchTree.TernarySearchTree.NearNeighbours | src/TernarySearchTree.java:343-412 | adds the neighbour search's terms, all of them from the tree; at budget 0, the table's term for the exact walk's end node if the word is a member, and, when every id maps to the term its node spells, exactly the word if it is a member and nothing otherwise; counts the search calls; records the counter as found iff the set is non-empty |
| TernarySearchTree.TernarySearchTree.ReturnAllResults | src/TernarySearchTree.java:420-433 | adds exactly the terms of the ids in the subtree |
| TernarySearchTree.TernarySearchTree.NearSearchWithSuffix | src/TernarySearchTree.java:435-515 | adds at least what the neighbour search finds, and beyond that only overflow records built from the tree's ids and suffixes of the word |
| TernarySearchTree.TernarySearchTree.BeginWith | src/TernarySearchTree.java:523-597 | adds only tree terms and at least the neighbour results; at budget 0 it reports what the exact walk's end node leads to, and, when every id maps to the term its node spells, only terms that begin with the word; an empty word gives every term |
| SearchExamples.BuildCaCat | src/TernarySearchTree.java:127-206 | adding "ca" then "cat" builds one chain whose 'a' and 't' nodes carry the ids; both are members, "c" is not |
| SearchExamples.ReusedIdReportsOther | src/TernarySearchTree.java:205 | after adding "cat" and then "dog" under the same id 1, "cat" is a member but the search for it with no budget reports "dog" |
| SearchExamples.ReAddKeepsId | src/TernarySearchTree.java:159-172 | re-adding "cat" under another id leaves the tree and its old id unchanged |
| SearchExamples.NeighbourStopsEarly | src/TernarySearchTree.java:382-393 | within one edit of "cat", the search over {"ca", "cat"} reports only "ca" |
| SearchExamples.MismatchSkipsMiddle | src/TernarySearchTree.java:382-393 | within one edit of "cb", the search over {"a", "ab"} reports nothing: the early-accept branch rejects 'a' and its mid subtree is never searched |
| SearchExamples.PrefixStopsEarly | src/TernarySearchTree.java:566-577 | the prefix search for "ca" with no budget reports only "ca", not "cat" |
| SearchExamples.SuffixRecordAtZero | src/TernarySearchTree.java:451-484 | with no budget, the suffix search for "a" at a single leaf 'b' (id 1) reports the record "b,a,0" although the exact walk falls off |

## Left out

- `print`, `index`, `main` and `SOURCE_FILE_NAME`: console and file I/O and timing. `m_indexFile`, `m_out` and the `BufferedReader` are not modelled. The reader works on the remaining input as a string, and end of stream is the end of the string.
- `IOException` from the stream is not modelled.
- The diagnostics printed by `readSubTree` ("Something is wrong") and by the searches ("Should never be here") are not modelled. The model adds nothing in those cases, as the code does.
- `TSTNode.java` (the node interface) is not part of this model. Its getters are field reads of the `Tree` value.
- Node identity and aliasing: the tree is a value, so nodes are never shared. `add` writes the parent's link through the path from the root (`ReplaceAt`), not through a pointer.
- TernarySearchTree.TernarySearchTree.HangChain: builds the chain from its last node upward, while the Java loop builds it downward from its first node. The resulting tree and node count are the same.
- The statistics fields: the four fields of each outcome are grouped into one `CostStats` value per outcome.
- TernarySearchTree.TernarySearchTree.SetStats: 32-bit wrap-around of `m_searchCostAvg` and of the counters is not modelled. Integers are unbounded.
- TernarySearchTree.TernarySearchTree.Add: 32-bit wrap-around of `m_totalNodes` is not modelled. The node id is `long` in the node and `int` in `add`, and both are unbounded here.
- TernarySearchTree.TernarySearchTree.NearNeighbours: 32-bit wrap-around of `singleSearchCost` is not modelled.
- `m_wordList` is keyed by `String.valueOf(ref)`. That text is injective, so the table is modelled as a map from the id itself.
- A null `word` in the three searches throws in the code unless the tree is empty or the distance is negative: then the searches return at once (src/TernarySearchTree.java:352, :442, :529), and `nearNeighbours` still records its counter (:346). The model takes a string and has no null case. A null `term` in `add` and `contains` is modelled as `None`.
- TernarySearchTree.TernarySearchTree.ReturnAllResults: requires every id in the subtree to have a term. The Java method would add `null` for a missing id. `Valid()` guarantees this for the tree's own subtrees.
- TernarySearchTree.TernarySearchTree.Add: requires a non-empty term unless the tree is empty, because the Java loop dereferences a null parent in that case.
- The recursive search methods add into a caller-owned set and increment a counter as they go. Here each search is a function returning the set it adds, and `NeighbourCalls` counts the increments. Only their final effect is modelled, not the order of the additions.
- Characters: `char` here is a Unicode scalar value, while Java's `charAt` and `read()` give UTF-16 code units. A character above U+FFFF is one node here and two in the Java tree, so node counts, heights, costs and the order between such characters and those in U+E000-U+FFFF differ for such input; lone surrogates cannot be represented. The model is exact for text whose characters all lie in the Basic Multilingual Plane.
- IntText.ParseInt: accepts ASCII digits only. `Integer.parseInt` also accepts other Unicode decimal digits.
- There is no writer for the index format. `IndexReader.EncodingThen` is a grammar of the reader's input, defined only to state the read-back property.
