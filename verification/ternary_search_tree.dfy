/**
 * The `TernarySearchTree` object: the root of the node tree, the id -> term
 * table, the node counter, the search-cost statistics and the call counter
 * of the neighbour search. Every operation that changes one of these fields
 * is a method; the tree it leaves behind is stated with the functions of
 * `TreeSpec` and `ApproximateSearch`, whose properties are proved there.
 */
module TernarySearchTree {
  import opened Wrappers
  import opened TernarySearchNode
  import opened IntText
  import opened TreeSpec
  import opened InsertProperties
  import opened ApproximateSearch
  import opened SearchProperties
  import opened SearchCost
  import opened TermLabels

  /** The tree invariant `add` keeps. */
  ghost predicate WellFormed(root: Tree, words: map<int, string>, totalNodes: int)
  {
    totalNodes == Size(root) && Registered(root, words) && Ordered(root)
  }

  /**
   * The four statistics fields of one outcome: lowest and highest cost, the
   * running total (named "average" in the Java fields) and the count.
   */
  datatype CostStats = CostStats(min: int, max: int, total: int, count: int)

  /** The fields of one outcome summarise the costs recorded under it. */
  ghost predicate Summarises(costs: seq<int>, st: CostStats)
  {
    st.min == Lowest(costs) && st.max == Highest(costs) && st.total == Total(costs) && st.count == |costs|
  }

  /** One `setStats` step keeps a group of statistics fields the summary of its costs. */
  lemma RecordKeepsSummary(costs: seq<int>, st: CostStats, cost: int)
    requires Summarises(costs, st)
    ensures Summarises(costs + [cost], CostStats(if cost < st.min then cost else st.min,
                                                 if cost > st.max then cost else st.max,
                                                 st.total + cost, st.count + 1))
  {
    Record(costs, cost);
  }

  /** `add` keeps the tree invariant: the counter grows by the nodes allocated and the term is entered. */
  lemma AddWellFormed(t: Tree, words: map<int, string>, n: int, s: string, r: int)
    requires WellFormed(t, words, n) && (s != [] || t == Nil)
    ensures WellFormed(Insert(t, s, r), words[r := s], n + NewNodes(t, s))
  {
    if s != [] {
      InsertSize(t, s, r);
      InsertOrdered(t, s, r);
      InsertRefs(t, s, r);
    }
  }

  /**
   * When every node without a mid child ends a word and the id is not -1,
   * `add` keeps that so, and the words of the tree afterwards are exactly
   * the words before and the added term.
   */
  lemma AddMembers(t: Tree, s: string, r: int)
    requires s != [] && r != NoRef && LeavesComplete(t)
    ensures LeavesComplete(Insert(t, s, r)) && Member(Insert(t, s, r), s)
    ensures forall s' :: Member(Insert(t, s, r), s') <==> Member(t, s') || s' == s
  {
    InsertLeavesComplete(t, s, r);
    forall s' ensures Member(Insert(t, s, r), s') <==> Member(t, s') || s' == s {
      InsertMembers(t, s, r, s');
    }
  }

  /**
   * `add` with an id the table does not hold yet (or -1) keeps every id in
   * the tree mapped to the term its node spells.
   */
  lemma AddLabelled(t: Tree, words: map<int, string>, s: string, r: int)
    requires (s != [] || t == Nil) && Labelled(t, words) && (r == NoRef || r !in words)
    ensures Labelled(Insert(t, s, r), words[r := s])
  {
    if s != [] {
      InsertLabelled(t, words, [], s, r);
      assert [] + s == s;
    }
  }

  class TernarySearchTree {
    var root: Tree
    var totalNodes: int
    /** `m_searchCostMin`, `m_searchCostMax`, `m_searchCostAvg` and `m_searchCount`. */
    var foundStats: CostStats
    /** The same four fields for the searches that found nothing. */
    var notFoundStats: CostStats
    /** The id -> term table (`m_wordList`, keyed there by the id's decimal text). */
    var wordList: map<int, string>
    /** The number of `nearNeighbourSearch` invocations so far; never reset. */
    var singleSearchCost: int

    /** The costs recorded for each outcome, oldest first. */
    ghost var foundCosts: seq<int>
    ghost var notFoundCosts: seq<int>

    /**
     * The node counter is the size of the tree, every id in the tree has a
     * term, the siblings are ordered, and each group of statistics fields
     * summarises its recorded costs.
     */
    ghost predicate Valid()
      reads this
    {
      WellFormed(root, wordList, totalNodes) &&
      Summarises(foundCosts, foundStats) && Summarises(notFoundCosts, notFoundStats)
    }

    /** The statistics fields with their recorded costs, for "nothing else changes". */
    ghost function Stats(): (CostStats, CostStats, seq<int>, seq<int>)
      reads this
    {
      (foundStats, notFoundStats, foundCosts, notFoundCosts)
    }

    constructor ()
      ensures Valid()
      ensures root == Nil && wordList == map[] && totalNodes == 0 && singleSearchCost == 0
      ensures foundCosts == [] && notFoundCosts == []
      ensures Labelled(root, wordList)
    {
      root := Nil;
      totalNodes := 0;
      foundStats := CostStats(IntMax, 0, 0, 0);
      notFoundStats := CostStats(IntMax, 0, 0, 0);
      wordList := map[];
      singleSearchCost := 0;
      foundCosts := [];
      notFoundCosts := [];
    }

    /**
     * `add(term, ref)`: walk the term down the tree; when the walk falls off,
     * hang the rest of the term there as a mid-linked chain whose last node
     * carries `ref`; when the term runs out on a node with a mid child, give
     * that node `ref`. The term is entered in the table under `ref` either
     * way. A `null` term (`None`) changes nothing; an empty term on a
     * non-empty tree makes the Java code dereference a null parent, which
     * the precondition excludes.
     */
    method Add(term: Option<string>, ref: int)
      requires Valid()
      requires term.None? || term.value != [] || root == Nil
      modifies this
      ensures Valid()
      ensures term.None? ==> root == old(root) && wordList == old(wordList) && totalNodes == old(totalNodes)
      ensures term.Some? ==> root == Insert(old(root), term.value, ref)
      ensures term.Some? ==> wordList == old(wordList)[ref := term.value]
      ensures term.Some? ==> totalNodes == old(totalNodes) + NewNodes(old(root), term.value)
      ensures term.Some? && term.value != [] && ref != NoRef && LeavesComplete(old(root)) ==>
        LeavesComplete(root) && Member(root, term.value) &&
        forall s' :: Member(root, s') <==> Member(old(root), s') || s' == term.value
      ensures term.Some? && (ref == NoRef || ref !in old(wordList)) && Labelled(old(root), old(wordList)) ==>
        Labelled(root, wordList)
      ensures Stats() == old(Stats()) && singleSearchCost == old(singleSearchCost)
    {
      if term.None? {
        return;
      }
      var s := term.value;
      Place(s, ref);
      AddWellFormed(old(root), old(wordList), old(totalNodes), s, ref);
      if s != [] && ref != NoRef && LeavesComplete(old(root)) {
        AddMembers(old(root), s, ref);
      }
      if (ref == NoRef || ref !in old(wordList)) && Labelled(old(root), old(wordList)) {
        AddLabelled(old(root), old(wordList), s, ref);
      }
      wordList := wordList[ref := s];
    }

    /**
     * The tree part of `add`: walk the term down, then either mark the node
     * the term ran out on, hang the unmatched suffix where the walk fell
     * off, or (the term ended on a node without a mid child) change nothing.
     */
    method Place(s: string, ref: int)
      requires s != [] || root == Nil
      modifies this
      ensures root == Insert(old(root), s, ref)
      ensures totalNodes == old(totalNodes) + NewNodes(old(root), s)
      ensures wordList == old(wordList) && Stats() == old(Stats()) && singleSearchCost == old(singleSearchCost)
    {
      var cur, idx, parent, parentPath, childDir := Walk(s);
      if cur != Nil {
        // the term is a proper prefix of a word already in the tree
        RunsOut(root, s, ref, parentPath, parent);
        root := ReplaceAt(root, parentPath, SetComplete(parent, ref));
      } else if idx < |s| {
        // the walk fell off the tree
        FallsOff(root, s, ref, idx, parentPath, childDir, parent);
        HangChain(s, idx, ref, parentPath, childDir, parent);
      } else if s != [] {
        // the last character matched a node without a mid child: nothing changes
        RunsOut(root, s, ref, parentPath, parent);
      }
    }

    /**
     * The loop of `add`: follow `s` down from the root until the walk falls
     * off the tree or the term is used up, keeping the last node visited
     * (`parent`), the links to it and the link taken from it. Where it
     * stops is what `FallsOff` and `RunsOut` need.
     */
    method Walk(s: string) returns (cur: Tree, idx: nat, parent: Tree, parentPath: seq<Dir>, childDir: Dir)
      requires s != [] || root == Nil
      ensures idx <= |s| && (cur == Nil || (idx == |s| && s != []))
      ensures (parent == Nil <==> root == Nil)
      ensures cur == Nil && idx < |s| ==>
        NewNodes(root, s) == |s| - idx &&
        (root == Nil ==> Descent(root, s) == []) &&
        (root != Nil ==> Descent(root, s) == parentPath + [childDir] && parent == Sub(root, parentPath) && parent.Node?)
      ensures idx == |s| && s != [] ==>
        Descent(root, s) == parentPath && NewNodes(root, s) == 0 &&
        parent == Locate(root, s) && parent.Node? && cur == parent.middle
    {
      cur := root;
      idx := 0;
      var len := |s|;
      parent := Nil;
      parentPath := [];
      childDir := Middle;
      var path: seq<Dir> := [];  // the links from the root to `cur`
      while cur != Nil
        invariant 0 <= idx <= len
        invariant cur == Sub(root, path)
        invariant path == [] ==> cur == root && idx == 0 && parent == Nil
        invariant path != [] ==> path == parentPath + [childDir] && parent == Sub(root, parentPath) && parent.Node?
        invariant idx < len ==>
          Descent(root, s) == path + Descent(cur, s[idx..]) &&
          NewNodes(root, s) == NewNodes(cur, s[idx..]) &&
          Locate(root, s) == Locate(cur, s[idx..])
        invariant idx == len && s != [] ==>
          path != [] && childDir == Middle && parent == Locate(root, s) && cur == parent.middle &&
          Descent(root, s) == parentPath && NewNodes(root, s) == 0
        decreases Size(cur)
      {
        if idx >= len {
          break;
        }
        parent := cur;
        parentPath := path;
        WalkStep(root, s, idx, path, cur);
        if cur.ch > s[idx] {
          cur := cur.left;
          childDir := Left;
        } else if cur.ch == s[idx] {
          cur := cur.middle;
          childDir := Middle;
          idx := idx + 1;
        } else {
          cur := cur.right;
          childDir := Right;
        }
        path := path + [childDir];
      }
    }

    /**
     * The end of `add` when the walk fell off the tree: allocate one node per
     * character of `s[idx..]`, counting each, mid-linked, the last carrying
     * `ref`; hang the chain at slot `childDir` of `parent`, or make it the
     * root of an empty tree.
     */
    method HangChain(s: string, idx: nat, ref: int, parentPath: seq<Dir>, childDir: Dir, parent: Tree)
      requires idx < |s| && (parent == Nil <==> root == Nil)
      modifies this
      ensures root == if old(root) == Nil then Chain(s[idx..], ref)
                     else ReplaceAt(old(root), parentPath, WithChild(parent, childDir, Chain(s[idx..], ref)))
      ensures totalNodes == old(totalNodes) + (|s| - idx)
      ensures wordList == old(wordList) && Stats() == old(Stats()) && singleSearchCost == old(singleSearchCost)
    {
      var len := |s|;
      var chain := SetComplete(NewNode(s[len - 1]), ref);
      totalNodes := totalNodes + 1;
      var j := len - 1;
      while j > idx
        invariant idx <= j <= len - 1
        invariant chain == Chain(s[j..], ref)
        invariant totalNodes == old(totalNodes) + (len - j)
        invariant root == old(root) && wordList == old(wordList)
        invariant Stats() == old(Stats()) && singleSearchCost == old(singleSearchCost)
      {
        j := j - 1;
        assert s[j..][1..] == s[j + 1..];
        chain := SetMiddle(NewNode(s[j]), chain);
        totalNodes := totalNodes + 1;
      }
      if parent != Nil {
        root := ReplaceAt(root, parentPath, WithChild(parent, childDir, chain));
      }
      if root == Nil {
        root := chain;
      }
    }

    /**
     * `setStats(cost, found)`: record a search cost under its outcome,
     * lowering the minimum, raising the maximum, adding to the total and
     * counting it.
     */
    method SetStats(cost: int, found: bool)
      requires Valid()
      modifies this
      ensures Valid()
      ensures found ==> foundCosts == old(foundCosts) + [cost] && notFoundCosts == old(notFoundCosts)
      ensures !found ==> notFoundCosts == old(notFoundCosts) + [cost] && foundCosts == old(foundCosts)
      ensures found ==> notFoundStats == old(notFoundStats)
      ensures !found ==> foundStats == old(foundStats)
      ensures root == old(root) && wordList == old(wordList) && totalNodes == old(totalNodes)
      ensures singleSearchCost == old(singleSearchCost)
    {
      var st := if found then foundStats else notFoundStats;
      ghost var before := st;
      if cost < st.min {
        st := st.(min := cost);
      }
      if cost > st.max {
        st := st.(max := cost);
      }
      st := st.(count := st.count + 1, total := st.total + cost);
      assert st == CostStats(if cost < before.min then cost else before.min,
                             if cost > before.max then cost else before.max,
                             before.total + cost, before.count + 1);
      if found {
        RecordKeepsSummary(foundCosts, foundStats, cost);
        foundStats := st;
        foundCosts := foundCosts + [cost];
      } else {
        RecordKeepsSummary(notFoundCosts, notFoundStats, cost);
        notFoundStats := st;
        notFoundCosts := notFoundCosts + [cost];
      }
    }

    /**
     * `contains(term)`: the exact-match walk. A `null` or empty term answers
     * false without recording anything; otherwise the number of nodes the
     * walk visited is recorded under the answer.
     */
    method Contains(term: Option<string>) returns (found: bool)
      requires Valid()
      modifies this
      ensures Valid()
      ensures found <==> term.Some? && Member(root, term.value)
      ensures root == old(root) && wordList == old(wordList) && totalNodes == old(totalNodes)
      ensures singleSearchCost == old(singleSearchCost)
      ensures term.None? || term.value == [] ==> Stats() == old(Stats())
      ensures term.Some? && term.value != [] && found ==>
        foundCosts == old(foundCosts) + [Probe(root, term.value)] && notFoundCosts == old(notFoundCosts)
      ensures term.Some? && term.value != [] && !found ==>
        notFoundCosts == old(notFoundCosts) + [Probe(root, term.value)] && foundCosts == old(foundCosts)
    {
      if term.None? || |term.value| <= 0 {
        return false;
      }
      var cost;
      found, cost := ExactWalk(term.value);
      SetStats(cost, found);
    }

    /**
     * The loop of `contains`: follow `s` down from the root, counting the
     * nodes visited, until the term is used up on a node (the answer is
     * whether it carries an id) or the walk falls off the tree.
     */
    method ExactWalk(s: string) returns (found: bool, cost: nat)
      requires s != []
      ensures found == Member(root, s)
      ensures cost == Probe(root, s) && cost <= TreeSpec.Height(root)
    {
      cost := 0;
      var cur := root;
      var idx := 0;
      var len := |s|;
      while cur != Nil
        invariant 0 <= idx < len
        invariant cost + Probe(cur, s[idx..]) == Probe(root, s)
        invariant Locate(cur, s[idx..]) == Locate(root, s)
        decreases Size(cur)
      {
        cost := cost + 1;
        if idx >= len {
          // the walk never reaches a node with the term used up
          assert false;
        }
        var ch := s[idx];
        ghost var rest := s[idx..];
        assert rest[0] == ch;
        if cur.ch > ch {
          cur := cur.left;
        } else if cur.ch < ch {
          cur := cur.right;
        } else {
          idx := idx + 1;
          if idx >= len {
            return cur.ref != NoRef, cost;
          }
          assert rest[1..] == s[idx..];
          cur := cur.middle;
        }
      }
      if idx == len {
        // the loop only ends with the term still unfinished
        assert false;
      }
      return false, cost;
    }

    /** `getTotalNodes`: the number of nodes `add` has allocated, which is the size of the tree. */
    method GetTotalNodes() returns (n: int)
      requires Valid()
      ensures n == Size(root)
    {
      n := totalNodes;
    }

    /** `height()`: the number of nodes on the longest downward path, at most the node count. */
    method Height() returns (h: int)
      requires Valid()
      ensures h == TreeSpec.Height(root)
      ensures 0 <= h <= totalNodes
      ensures h == 0 <==> root == Nil
    {
      h := TreeSpec.Height(root);
      HeightAtMostSize(root);
    }

    /**
     * `nearNeighbours(ret, word, distance)`: add the neighbour search's terms
     * to `ret`, count its invocations into `singleSearchCost`, and record that
     * (cumulative) counter as a cost under "found" exactly when the resulting
     * set is non-empty.
     */
    method NearNeighbours(ret: set<string>, word: string, distance: int) returns (result: set<string>)
      requires Valid()
      modifies this
      ensures Valid()
      ensures result == ret + Search(Neighbour, root, wordList, word, 0, distance)
      ensures result - ret <= Image(wordList, Refs(root))
      ensures distance == 0 && word != [] ==>
        result == ret + (if Member(root, word) then {wordList[Locate(root, word).ref]} else {})
      ensures distance == 0 && Labelled(root, wordList) ==>
        result == ret + (if Member(root, word) then {word} else {})
      ensures singleSearchCost == old(singleSearchCost) + NeighbourCalls(root, word, 0, distance)
      ensures result != {} ==> foundCosts == old(foundCosts) + [singleSearchCost] && notFoundCosts == old(notFoundCosts)
      ensures result == {} ==> notFoundCosts == old(notFoundCosts) + [singleSearchCost] && foundCosts == old(foundCosts)
      ensures root == old(root) && wordList == old(wordList) && totalNodes == old(totalNodes)
    {
      result := ret + Search(Neighbour, root, wordList, word, 0, distance);
      singleSearchCost := singleSearchCost + NeighbourCalls(root, word, 0, distance);
      SetStats(singleSearchCost, |result| > 0);
      SearchSound(Neighbour, root, wordList, word, 0, distance);
      if distance == 0 && word != [] {
        NeighbourAtZero(root, wordList, word, 0);
        assert word[0..] == word;
      }
      if distance == 0 && Labelled(root, wordList) {
        NeighbourExactAtZero(root, wordList, word);
      }
    }

    /** `returnAllResults(ret, node)`: add the term of every node of `node` that carries an id. */
    method ReturnAllResults(ret: set<string>, node: Tree) returns (result: set<string>)
      requires Registered(node, wordList)
      ensures result == ret + Image(wordList, Refs(node))
    {
      result := ret + AllResults(node, wordList);
      AllResultsImage(node, wordList);
    }

    /**
     * `nearSearchWithSuffix(ret, word, distance)`: the neighbour search that
     * also reports "term,suffix,distance" records where a term ends before
     * the word does.
     */
    method NearSearchWithSuffix(ret: set<string>, word: string, distance: int) returns (result: set<string>)
      requires Valid()
      ensures result == ret + Search(WithSuffix, root, wordList, word, 0, distance)
      ensures result - ret <= Image(wordList, Refs(root)) + Records(wordList, Refs(root), word, distance)
      ensures Search(Neighbour, root, wordList, word, 0, distance) <= result
      ensures result - ret <= Search(Neighbour, root, wordList, word, 0, distance) + Records(wordList, Refs(root), word, distance)
    {
      result := ret + Search(WithSuffix, root, wordList, word, 0, distance);
      SearchSound(WithSuffix, root, wordList, word, 0, distance);
      NeighbourWithin(WithSuffix, root, wordList, word, 0, distance);
      SuffixWithin(root, wordList, word, 0, distance);
    }

    /**
     * `beginWith(ret, word, distance)`: the prefix search. With no budget it
     * reports the node the exact walk stops at if it carries an id, and
     * otherwise everything below it; with an empty word, every term of the tree.
     */
    method BeginWith(ret: set<string>, word: string, distance: int) returns (result: set<string>)
      requires Valid()
      ensures result == ret + Search(Prefix, root, wordList, word, 0, distance)
      ensures result - ret <= Image(wordList, Refs(root))
      ensures Search(Neighbour, root, wordList, word, 0, distance) <= result
      ensures distance == 0 && word != [] ==>
        var n := Locate(root, word);
        result == ret + (if n.Nil? then {}
                         else if n.ref != NoRef then {wordList[n.ref]}
                         else if n.middle.Nil? then {}
                         else AllResults(n.middle, wordList))
      ensures word == [] && distance >= 0 ==> result == ret + Image(wordList, Refs(root))
      ensures distance == 0 && Labelled(root, wordList) ==> forall x | x in result - ret :: word <= x
    {
      result := ret + Search(Prefix, root, wordList, word, 0, distance);
      SearchSound(Prefix, root, wordList, word, 0, distance);
      NeighbourWithin(Prefix, root, wordList, word, 0, distance);
      if distance == 0 && word != [] {
        PrefixAtZero(root, wordList, word, 0);
        assert word[0..] == word;
      }
      if word == [] && distance >= 0 && root.Node? {
        PrefixCollectsSubtree(root, wordList, word, 0, distance);
      }
      if distance == 0 && Labelled(root, wordList) {
        PrefixBeginsAtZero(root, wordList, word);
      }
    }
  }
}
