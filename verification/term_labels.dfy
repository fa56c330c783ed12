/**
 * How the id -> term table relates to the tree. The tree stores ids, the
 * table stores terms; nothing in the code ties the two together, and an id
 * used for two terms leaves the first term's node pointing at the second
 * term. When every id is fresh, each id in the tree maps to exactly the
 * term its node spells, and the exact walk and the prefix search then
 * report the word itself and words that begin with it.
 */
module TermLabels {
  import opened TernarySearchNode
  import opened TreeSpec
  import opened ApproximateSearch
  import opened SearchProperties

  /**
   * Every id in `t` maps in the table to the term its node spells: `pre`,
   * then the character of every node left by a mid link on the way down,
   * then the node's own character.
   */
  ghost predicate LabelledFrom(t: Tree, words: map<int, string>, pre: string)
  {
    match t
    case Nil => true
    case Node(c, ref, left, middle, right) =>
      (ref != NoRef ==> ref in words && words[ref] == pre + [c]) &&
      LabelledFrom(left, words, pre) && LabelledFrom(right, words, pre) &&
      LabelledFrom(middle, words, pre + [c])
  }

  /** Every id in the tree maps to the term its node spells from the root. */
  ghost predicate Labelled(t: Tree, words: map<int, string>)
  {
    LabelledFrom(t, words, [])
  }

  /** Entering a term under an id the table does not hold yet (or under -1) relabels no node. */
  lemma {:induction false} LabelsKept(t: Tree, words: map<int, string>, pre: string, r: int, v: string)
    requires LabelledFrom(t, words, pre) && (r == NoRef || r !in words)
    ensures LabelledFrom(t, words[r := v], pre)
  {
    match t
    case Nil =>
    case Node(c, ref, left, middle, right) =>
      LabelsKept(left, words, pre, r, v);
      LabelsKept(middle, words, pre + [c], r, v);
      LabelsKept(right, words, pre, r, v);
  }

  /** The chain `add` hangs for the suffix `s` below `pre` carries the label `pre + s` on its last node. */
  lemma {:induction false} ChainLabelled(s: string, r: int, words: map<int, string>, pre: string)
    requires s != []
    ensures LabelledFrom(Chain(s, r), words[r := pre + s], pre)
  {
    if |s| == 1 {
      assert pre + [s[0]] == pre + s;
    } else {
      ChainLabelled(s[1..], r, words, pre + [s[0]]);
      assert pre + [s[0]] + s[1..] == pre + s;
    }
  }

  /**
   * `add(s, r)` with an id the table does not hold yet, followed by entering
   * `s` under `r`, keeps every id labelled by the term its node spells.
   */
  lemma {:induction false} InsertLabelled(t: Tree, words: map<int, string>, pre: string, s: string, r: int)
    requires s != [] && LabelledFrom(t, words, pre) && (r == NoRef || r !in words)
    ensures LabelledFrom(Insert(t, s, r), words[r := pre + s], pre)
  {
    match t
    case Nil => ChainLabelled(s, r, words, pre);
    case Node(c, ref, left, middle, right) =>
      var v := pre + s;
      LabelsKept(left, words, pre, r, v);
      LabelsKept(middle, words, pre + [c], r, v);
      LabelsKept(right, words, pre, r, v);
      if c > s[0] {
        InsertLabelled(left, words, pre, s, r);
      } else if c < s[0] {
        InsertLabelled(right, words, pre, s, r);
      } else if |s| == 1 {
        assert pre + [c] == v;
      } else {
        InsertLabelled(middle, words, pre + [c], s[1..], r);
        assert pre + [c] + s[1..] == v;
      }
  }

  /**
   * The node the exact walk for `w` stops at is labelled `pre + w` when it
   * carries an id, and everything below its mid link is labelled from
   * `pre + w`.
   */
  lemma {:induction false} LocateLabelled(t: Tree, words: map<int, string>, pre: string, w: string)
    requires w != [] && LabelledFrom(t, words, pre)
    ensures var n := Locate(t, w);
      n.Node? ==>
        (n.ref != NoRef ==> n.ref in words && words[n.ref] == pre + w) &&
        LabelledFrom(n.middle, words, pre + w)
  {
    match t
    case Nil =>
    case Node(c, _, left, middle, right) =>
      if c > w[0] {
        LocateLabelled(left, words, pre, w);
      } else if c < w[0] {
        LocateLabelled(right, words, pre, w);
      } else if |w| == 1 {
        assert pre + [c] == pre + w;
      } else {
        LocateLabelled(middle, words, pre + [c], w[1..]);
        assert pre + [c] + w[1..] == pre + w;
      }
  }

  /** Every id of a subtree labelled from `pre` has a term, and that term begins with `pre`. */
  lemma {:induction false} LabelsBeginWith(t: Tree, words: map<int, string>, pre: string)
    requires LabelledFrom(t, words, pre)
    ensures Registered(t, words)
    ensures forall x | x in Image(words, Refs(t)) :: pre <= x
  {
    match t
    case Nil =>
    case Node(c, ref, left, middle, right) =>
      LabelsBeginWith(left, words, pre);
      LabelsBeginWith(middle, words, pre + [c]);
      LabelsBeginWith(right, words, pre);
      forall x | x in Image(words, Refs(t))
        ensures pre <= x
      {
        var i :| i in Refs(t) && words[i] == x;
        if i in Refs(middle) {
          assert x in Image(words, Refs(middle));
          assert pre <= pre + [c] <= x;
        } else if i in Refs(left) {
          assert x in Image(words, Refs(left));
        } else if i in Refs(right) {
          assert x in Image(words, Refs(right));
        }
      }
  }

  /** On a labelled tree the neighbour search with no budget is the exact match: `word` if it is a member, else nothing. */
  lemma NeighbourExactAtZero(t: Tree, words: map<int, string>, w: string)
    requires Labelled(t, words)
    ensures Registered(t, words)
    ensures Search(Neighbour, t, words, w, 0, 0) == if Member(t, w) then {w} else {}
  {
    LabelsBeginWith(t, words, []);
    if w != [] {
      NeighbourAtZero(t, words, w, 0);
      assert w[0..] == w;
      LocateLabelled(t, words, [], w);
      assert [] + w == w;
    }
  }

  /** On a labelled tree every term the prefix search reports with no budget begins with `word`. */
  lemma PrefixBeginsAtZero(t: Tree, words: map<int, string>, w: string)
    requires Labelled(t, words)
    ensures Registered(t, words)
    ensures forall x | x in Search(Prefix, t, words, w, 0, 0) :: w <= x
  {
    LabelsBeginWith(t, words, []);
    if w != [] {
      PrefixAtZero(t, words, w, 0);
      assert w[0..] == w;
      LocateLabelled(t, words, [], w);
      assert [] + w == w;
      var n := Locate(t, w);
      if n.Node? && n.ref == NoRef && n.middle.Node? {
        LabelsBeginWith(n.middle, words, w);
        AllResultsImage(n.middle, words);
      }
    }
  }
}
