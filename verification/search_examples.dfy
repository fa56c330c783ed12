/**
 * Small worked trees. They pin down behaviours of the code that a reader
 * of the documentation might not expect: re-adding a word whose last node
 * is a leaf keeps the old id, an id used for two terms makes the search
 * report the later term, and the neighbour and prefix searches stop at the
 * first node that carries a term close enough to the word, without
 * visiting that node's mid subtree.
 */
module SearchExamples {
  import opened TernarySearchNode
  import opened TreeSpec
  import opened ApproximateSearch
  import opened IntText
  import opened SearchProperties

  /** The tree holding "ca" with id 1 and "cat" with id 2. */
  const CaCat := Node('c', NoRef, Nil, Node('a', 1, Nil, Node('t', 2, Nil, Nil, Nil), Nil), Nil)

  const CaCatWords := map[1 := "ca", 2 := "cat"]

  /** Adding "ca" and then "cat" to an empty tree builds `CaCat`, which then holds both words. */
  lemma BuildCaCat()
    ensures Insert(Insert(Nil, "ca", 1), "cat", 2) == CaCat
    ensures Member(CaCat, "ca") && Member(CaCat, "cat") && !Member(CaCat, "c")
    ensures Registered(CaCat, CaCatWords)
  {
    assert Insert(Nil, "ca", 1) == Node('c', NoRef, Nil, Node('a', 1, Nil, Nil, Nil), Nil);
  }

  /** Adding "cat" again under another id leaves the tree as it was: the leaf keeps id 2. */
  lemma ReAddKeepsId()
    ensures Insert(Chain("cat", 2), "cat", 5) == Chain("cat", 2)
    ensures Locate(Chain("cat", 2), "cat").ref == 2
  {
    assert Chain("cat", 2) == Node('c', NoRef, Nil, Node('a', NoRef, Nil, Node('t', 2, Nil, Nil, Nil), Nil), Nil);
  }

  /**
   * An id used for two terms: after adding "cat" and then "dog", both under
   * id 1, "cat" is still a member but its node's id now names "dog", so the
   * search with no budget for "cat" reports "dog".
   */
  lemma ReusedIdReportsOther()
    ensures var t := Insert(Insert(Nil, "cat", 1), "dog", 1);
      Member(t, "cat") && Search(Neighbour, t, map[1 := "dog"], "cat", 0, 0) == {"dog"}
  {
    var cat := Node('c', NoRef, Nil, Node('a', NoRef, Nil, Node('t', 1, Nil, Nil, Nil), Nil), Nil);
    var dog := Node('d', NoRef, Nil, Node('o', NoRef, Nil, Node('g', 1, Nil, Nil, Nil), Nil), Nil);
    assert Insert(Nil, "cat", 1) == cat;
    assert Insert(Nil, "dog", 1) == dog;
    var t := SetRight(cat, dog);
    assert Insert(cat, "dog", 1) == t;
    assert Locate(t, "cat") == cat.middle.middle;
    NeighbourAtZero(t, map[1 := "dog"], "cat", 0);
    assert "cat"[0..] == "cat";
  }

  /**
   * The neighbour search for "cat" within one edit accepts "ca" at the 'a'
   * node and does not go on to the 't' node, so "cat" itself, an exact
   * match, is not reported.
   */
  lemma NeighbourStopsEarly()
    ensures Search(Neighbour, CaCat, CaCatWords, "cat", 0, 1) == {"ca"}
  {
    BuildCaCat();
    var a := CaCat.middle;
    assert AtNode(Neighbour, a, CaCatWords, "cat", 1, 1) == {"ca"};
    assert Search(Neighbour, a, CaCatWords, "cat", 1, 1) == {"ca"};
  }

  /**
   * The early-accept branch is entered before the character is compared: over
   * {"a", "ab"}, "cb" within one edit reaches 'a' with the rest "b" in budget,
   * rejects 'a' on the mismatch and never searches below it, so "ab", one
   * substitution away, is not reported.
   */
  lemma MismatchSkipsMiddle()
    ensures Search(Neighbour, Node('a', 1, Nil, Node('b', 2, Nil, Nil, Nil), Nil), map[1 := "a", 2 := "ab"], "cb", 0, 1) == {}
  {
    var t := Node('a', 1, Nil, Node('b', 2, Nil, Nil, Nil), Nil);
    assert AtNode(Neighbour, t, map[1 := "a", 2 := "ab"], "cb", 0, 1) == {};
  }

  /** The prefix search for "ca" with no budget reports "ca" only, not "cat", which also begins with "ca". */
  lemma PrefixStopsEarly()
    ensures Search(Prefix, CaCat, CaCatWords, "ca", 0, 0) == {"ca"}
  {
    BuildCaCat();
    var a := CaCat.middle;
    assert AtNode(Prefix, a, CaCatWords, "ca", 1, 0) == {"ca"};
    assert Search(Prefix, a, CaCatWords, "ca", 1, 0) == {"ca"};
  }

  /**
   * With no budget the suffix variant can still report something where the
   * exact walk falls off: for "a" at a single leaf 'b' it emits the overflow
   * record "b,a,0".
   */
  lemma SuffixRecordAtZero()
    ensures Search(WithSuffix, Node('b', 1, Nil, Nil, Nil), map[1 := "b"], "a", 0, 0) == {"b,a,0"}
    ensures Locate(Node('b', 1, Nil, Nil, Nil), "a") == Nil
  {
    var t := Node('b', 1, Nil, Nil, Nil);
    var words := map[1 := "b"];
    assert Decimal(0) == "0";
    assert "a"[0..] == "a";
    assert "b" + "," + "a" + "," + "0" == "b,a,0";
    assert AtNode(WithSuffix, t, words, "a", 0, 0) == {"b,a,0"};
    assert Search(WithSuffix, Nil, words, "a", 0, 0) == {};
  }
}
