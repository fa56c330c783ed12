/**
 * What the three searches guarantee: they only report terms of ids found in
 * the searched subtree (plus, for the suffix variant, overflow records built
 * from them); the suffix and prefix variants report everything the
 * neighbour search reports; with no edit budget the neighbour search is the
 * exact match and the prefix search is characterised by the node the exact
 * walk stops at; and once the word is used up the prefix search reports the
 * whole subtree.
 */
module SearchProperties {
  import opened TernarySearchNode
  import opened TreeSpec
  import opened IntText
  import opened ApproximateSearch

  lemma ImageMono(words: map<int, string>, a: set<int>, b: set<int>)
    requires a <= b <= words.Keys
    ensures Image(words, a) <= Image(words, b)
  {
  }

  lemma ImageUnion(words: map<int, string>, a: set<int>, b: set<int>)
    requires a <= words.Keys && b <= words.Keys
    ensures Image(words, a + b) == Image(words, a) + Image(words, b)
  {
    forall x | x in Image(words, a + b)
      ensures x in Image(words, a) + Image(words, b)
    {
      var r :| r in a + b && words[r] == x;
      if r in a {
        assert x in Image(words, a);
      } else {
        assert x in Image(words, b);
      }
    }
  }

  lemma RecordsMono(words: map<int, string>, a: set<int>, b: set<int>, w: string, d1: int, d2: int)
    requires a <= b <= words.Keys && d1 <= d2
    ensures Records(words, a, w, d1) <= Records(words, b, w, d2)
  {
    forall x | x in Records(words, a, w, d1)
      ensures x in Records(words, b, w, d2)
    {
      var r, k, e :| r in a && 0 <= k <= |w| && 0 <= e <= d1 && x == words[r] + "," + w[k..] + "," + Decimal(e);
      assert r in b && e <= d2;
    }
  }

  lemma RefsOfChildren(t: Tree)
    requires t.Node?
    ensures Refs(t.left) <= Refs(t) && Refs(t.middle) <= Refs(t) && Refs(t.right) <= Refs(t)
    ensures t.ref != NoRef ==> t.ref in Refs(t)
  {
  }

  /** `returnAllResults` reports exactly the terms of the ids stored in the subtree. */
  lemma {:induction false} AllResultsImage(t: Tree, words: map<int, string>)
    requires Registered(t, words)
    ensures AllResults(t, words) == Image(words, Refs(t))
  {
    match t
    case Nil =>
    case Node(_, ref, left, middle, right) =>
      AllResultsImage(left, words);
      AllResultsImage(middle, words);
      AllResultsImage(right, words);
      var own: set<int> := if ref != NoRef then {ref} else {};
      ImageUnion(words, own, Refs(left));
      ImageUnion(words, own + Refs(left), Refs(middle));
      ImageUnion(words, own + Refs(left) + Refs(middle), Refs(right));
      assert Image(words, own) == (if ref != NoRef then {words[ref]} else {});
  }

  /**
   * Every search only reports terms of word ids stored in the searched
   * subtree; the suffix variant may also report overflow records
   * "term,suffix,budget" built from such a term, a suffix of the word and a
   * budget no larger than the one it started with.
   */
  lemma {:induction false} SearchSound(v: Variant, t: Tree, words: map<int, string>, w: string, o: nat, d: int)
    requires Registered(t, words) && o <= |w|
    ensures Search(v, t, words, w, o, d) <= Bound(v, words, Refs(t), w, d)
    decreases d, |w| - o, t, 1
  {
    if t.Nil? || d < 0 {
    } else if |w| <= o {
      if v == Prefix {
        AllResultsImage(t, words);
      }
    } else {
      RefsOfChildren(t);
      if d > 0 || w[o] < t.ch {
        SearchSound(v, t.left, words, w, o, d);
        BoundMono(v, words, Refs(t.left), Refs(t), w, d, d);
      }
      if d > 0 || w[o] > t.ch {
        SearchSound(v, t.right, words, w, o, d);
        BoundMono(v, words, Refs(t.right), Refs(t), w, d, d);
      }
      AtNodeSound(v, t, words, w, o, d);
    }
  }

  lemma {:induction false} AtNodeSound(v: Variant, t: Tree, words: map<int, string>, w: string, o: nat, d: int)
    requires Registered(t, words) && o < |w| && t.Node? && d >= 0
    ensures AtNode(v, t, words, w, o, d) <= Bound(v, words, Refs(t), w, d)
    decreases d, |w| - o, t, 0
  {
    var refs := Refs(t);
    RefsOfChildren(t);
    if t.middle.Nil? || (t.ref != NoRef && |w| - (o + 1) <= d) {
      var k := if w[o] == t.ch then o + 1 else o;
      if t.ref != NoRef {
        assert words[t.ref] in Image(words, refs);
        if t.middle.Nil? && |w| - k > d && v == WithSuffix {
          var x := words[t.ref] + "," + w[k..] + "," + Decimal(d);
          assert x in Records(words, refs, w, d);
        }
      }
    } else if w[o] == t.ch {
      SearchSound(v, t.middle, words, w, o + 1, d);
      BoundMono(v, words, Refs(t.middle), refs, w, d, d);
    } else {
      SearchSound(v, t.middle, words, w, o + 1, d - 1);
      SearchSound(v, t.middle, words, w, o, d - 1);
      SearchSound(v, t, words, w, o + 1, d - 1);
      BoundMono(v, words, Refs(t.middle), refs, w, d - 1, d);
      BoundMono(v, words, refs, refs, w, d - 1, d);
    }
  }

  /** What a search from a subtree holding `refs` may report. */
  ghost function Bound(v: Variant, words: map<int, string>, refs: set<int>, w: string, d: int): set<string>
    requires refs <= words.Keys
  {
    Image(words, refs) + (if v == WithSuffix then Records(words, refs, w, d) else {})
  }

  lemma BoundMono(v: Variant, words: map<int, string>, a: set<int>, b: set<int>, w: string, d1: int, d2: int)
    requires a <= b <= words.Keys && d1 <= d2
    ensures Bound(v, words, a, w, d1) <= Bound(v, words, b, w, d2)
  {
    ImageMono(words, a, b);
    RecordsMono(words, a, b, w, d1, d2);
  }

  /** The suffix and prefix variants report at least what the neighbour search reports. */
  lemma {:induction false} NeighbourWithin(v: Variant, t: Tree, words: map<int, string>, w: string, o: nat, d: int)
    requires v != Neighbour && Registered(t, words) && o <= |w|
    ensures Search(Neighbour, t, words, w, o, d) <= Search(v, t, words, w, o, d)
    decreases d, |w| - o, t, 3
  {
    if t.Node? && d >= 0 && o < |w| {
      RefsOfChildren(t);
      var goLeft, goRight := d > 0 || w[o] < t.ch, d > 0 || w[o] > t.ch;
      if goLeft {
        NeighbourWithin(v, t.left, words, w, o, d);
      }
      if goRight {
        NeighbourWithin(v, t.right, words, w, o, d);
      }
      AtNodeNeighbourWithin(v, t, words, w, o, d);
      UnionWithin(if goLeft then Search(Neighbour, t.left, words, w, o, d) else {},
                  AtNode(Neighbour, t, words, w, o, d),
                  if goRight then Search(Neighbour, t.right, words, w, o, d) else {},
                  if goLeft then Search(v, t.left, words, w, o, d) else {},
                  AtNode(v, t, words, w, o, d),
                  if goRight then Search(v, t.right, words, w, o, d) else {},
                  {}, {}, {});
    }
  }

  lemma {:induction false} AtNodeNeighbourWithin(v: Variant, t: Tree, words: map<int, string>, w: string, o: nat, d: int)
    requires v != Neighbour && Registered(t, words) && o < |w| && t.Node? && d >= 0
    ensures AtNode(Neighbour, t, words, w, o, d) <= AtNode(v, t, words, w, o, d)
    decreases d, |w| - o, t, 2
  {
    if t.middle.Node? && !(t.ref != NoRef && |w| - (o + 1) <= d) {
      RefsOfChildren(t);
      if w[o] == t.ch {
        NeighbourWithin(v, t.middle, words, w, o + 1, d);
      } else {
        EditsNeighbourWithin(v, t, words, w, o, d);
      }
    }
  }

  /** The three edit calls of the general regime, for `NeighbourWithin`. */
  lemma {:induction false} EditsNeighbourWithin(v: Variant, t: Tree, words: map<int, string>, w: string, o: nat, d: int)
    requires v != Neighbour && Registered(t, words) && o < |w| && t.Node? && d >= 0 && t.middle.Node?
    ensures var m := t.middle;
      Search(Neighbour, m, words, w, o + 1, d - 1) + Search(Neighbour, m, words, w, o, d - 1) +
      Search(Neighbour, t, words, w, o + 1, d - 1) <=
      Search(v, m, words, w, o + 1, d - 1) + Search(v, m, words, w, o, d - 1) +
      Search(v, t, words, w, o + 1, d - 1)
    decreases d, |w| - o, t, 1
  {
    var m := t.middle;
    RefsOfChildren(t);
    NeighbourWithin(v, m, words, w, o + 1, d - 1);
    NeighbourWithin(v, m, words, w, o, d - 1);
    NeighbourWithin(v, t, words, w, o + 1, d - 1);
    UnionWithin(Search(Neighbour, m, words, w, o + 1, d - 1), Search(Neighbour, m, words, w, o, d - 1),
                Search(Neighbour, t, words, w, o + 1, d - 1),
                Search(v, m, words, w, o + 1, d - 1), Search(v, m, words, w, o, d - 1),
                Search(v, t, words, w, o + 1, d - 1), {}, {}, {});
  }

  /**
   * Conversely, the suffix variant reports nothing beyond the neighbour
   * search's terms and overflow records built from the subtree's ids.
   */
  lemma {:induction false} SuffixWithin(t: Tree, words: map<int, string>, w: string, o: nat, d: int)
    requires Registered(t, words) && o <= |w|
    ensures Search(WithSuffix, t, words, w, o, d) <=
      Search(Neighbour, t, words, w, o, d) + Records(words, Refs(t), w, d)
    decreases d, |w| - o, t, 3
  {
    if t.Node? && d >= 0 && o < |w| {
      RefsOfChildren(t);
      if d > 0 || w[o] < t.ch {
        SuffixWithin(t.left, words, w, o, d);
        RecordsMono(words, Refs(t.left), Refs(t), w, d, d);
      }
      if d > 0 || w[o] > t.ch {
        SuffixWithin(t.right, words, w, o, d);
        RecordsMono(words, Refs(t.right), Refs(t), w, d, d);
      }
      AtNodeWithin(t, words, w, o, d);
    }
  }

  lemma {:induction false} AtNodeWithin(t: Tree, words: map<int, string>, w: string, o: nat, d: int)
    requires Registered(t, words) && o < |w| && t.Node? && d >= 0
    ensures AtNode(WithSuffix, t, words, w, o, d) <=
      AtNode(Neighbour, t, words, w, o, d) + Records(words, Refs(t), w, d)
    decreases d, |w| - o, t, 2
  {
    if t.middle.Nil? {
      var k := if w[o] == t.ch then o + 1 else o;
      if |w| - k > d && t.ref != NoRef {
        RefsOfChildren(t);
        var x := words[t.ref] + "," + w[k..] + "," + Decimal(d);
        assert x in Records(words, Refs(t), w, d);
      }
    } else if t.ref != NoRef && |w| - (o + 1) <= d {
    } else {
      DescentWithin(t, words, w, o, d);
    }
  }

  /** The general regime of `AtNodeWithin`: the mid-link and edit calls. */
  lemma {:induction false} DescentWithin(t: Tree, words: map<int, string>, w: string, o: nat, d: int)
    requires Registered(t, words) && o < |w| && t.Node? && d >= 0
    requires t.middle.Node? && !(t.ref != NoRef && |w| - (o + 1) <= d)
    ensures AtNode(WithSuffix, t, words, w, o, d) <=
      AtNode(Neighbour, t, words, w, o, d) + Records(words, Refs(t), w, d)
    decreases d, |w| - o, t, 1
  {
    RefsOfChildren(t);
    if w[o] == t.ch {
      SuffixWithin(t.middle, words, w, o + 1, d);
      RecordsMono(words, Refs(t.middle), Refs(t), w, d, d);
    } else {
      EditsWithin(t, words, w, o, d);
    }
  }

  /** The three edit calls of the general regime, each with one unit of budget less. */
  lemma {:induction false} EditsWithin(t: Tree, words: map<int, string>, w: string, o: nat, d: int)
    requires Registered(t, words) && o < |w| && t.Node? && d >= 0 && t.middle.Node?
    ensures var m := t.middle;
      Search(WithSuffix, m, words, w, o + 1, d - 1) + Search(WithSuffix, m, words, w, o, d - 1) +
      Search(WithSuffix, t, words, w, o + 1, d - 1) <=
      Search(Neighbour, m, words, w, o + 1, d - 1) + Search(Neighbour, m, words, w, o, d - 1) +
      Search(Neighbour, t, words, w, o + 1, d - 1) + Records(words, Refs(t), w, d)
    decreases d, |w| - o, t, 0
  {
    var m := t.middle;
    RefsOfChildren(t);
    SuffixWithin(m, words, w, o + 1, d - 1);
    SuffixWithin(m, words, w, o, d - 1);
    SuffixWithin(t, words, w, o + 1, d - 1);
    RecordsMono(words, Refs(m), Refs(t), w, d - 1, d);
    RecordsMono(words, Refs(t), Refs(t), w, d - 1, d);
    UnionWithin(Search(WithSuffix, m, words, w, o + 1, d - 1), Search(WithSuffix, m, words, w, o, d - 1),
                Search(WithSuffix, t, words, w, o + 1, d - 1),
                Search(Neighbour, m, words, w, o + 1, d - 1), Search(Neighbour, m, words, w, o, d - 1),
                Search(Neighbour, t, words, w, o + 1, d - 1),
                Records(words, Refs(m), w, d - 1), Records(words, Refs(t), w, d - 1), Records(words, Refs(t), w, d));
  }

  lemma UnionWithin<T>(a1: set<T>, a2: set<T>, a3: set<T>, n1: set<T>, n2: set<T>, n3: set<T>,
                       rm: set<T>, rt: set<T>, r: set<T>)
    requires a1 <= n1 + rm && a2 <= n2 + rm && a3 <= n3 + rt && rm <= r && rt <= r
    ensures a1 + a2 + a3 <= n1 + n2 + n3 + r
  {
  }

  /**
   * Where the suffix variant emits an overflow record: at a node without a
   * mid child that carries an id, when more of the word is left (after
   * matching this node's character, if it matches) than the budget covers.
   * The record is "term,unmatched suffix,budget", and nothing else differs.
   */
  lemma OverflowAtLeaf(t: Tree, words: map<int, string>, w: string, o: nat, d: int)
    requires Registered(t, words) && o < |w| && t.Node? && t.middle.Nil? && d >= 0
    ensures var k := if w[o] == t.ch then o + 1 else o;
      AtNode(WithSuffix, t, words, w, o, d) ==
        AtNode(Neighbour, t, words, w, o, d) +
        (if t.ref != NoRef && |w| - k > d then {words[t.ref] + "," + w[k..] + "," + Decimal(d)} else {})
  {
  }

  /** At a node with a mid child that is accepted early, the suffix variant adds what the neighbour search adds. */
  lemma NoOverflowOnEarlyAccept(t: Tree, words: map<int, string>, w: string, o: nat, d: int)
    requires Registered(t, words) && o < |w| && t.Node? && t.middle.Node? && d >= 0
    requires t.ref != NoRef && |w| - (o + 1) <= d
    ensures AtNode(WithSuffix, t, words, w, o, d) == AtNode(Neighbour, t, words, w, o, d)
  {
  }

  /** With no budget, a node whose character differs from the word's adds nothing itself. */
  lemma MismatchAtZero(v: Variant, t: Tree, words: map<int, string>, w: string, o: nat)
    requires Registered(t, words) && o < |w| && t.Node? && w[o] != t.ch && v != WithSuffix
    ensures AtNode(v, t, words, w, o, 0) == {}
  {
    if t.middle.Node? && !(t.ref != NoRef && |w| - (o + 1) <= 0) {
      RefsOfChildren(t);
      assert Search(v, t.middle, words, w, o + 1, -1) == {};
      assert Search(v, t.middle, words, w, o, -1) == {};
      assert Search(v, t, words, w, o + 1, -1) == {};
    }
  }

  /**
   * With no edit budget the neighbour search follows the walk of `contains`:
   * it reports the term of the node reached when the rest of the word is a
   * member, and nothing otherwise.
   */
  lemma {:induction false} NeighbourAtZero(t: Tree, words: map<int, string>, w: string, o: nat)
    requires Registered(t, words) && o < |w|
    ensures Search(Neighbour, t, words, w, o, 0) ==
      if Member(t, w[o..]) then {words[Locate(t, w[o..]).ref]} else {}
    decreases t
  {
    match t
    case Nil =>
    case Node(c, ref, left, middle, right) =>
      RefsOfChildren(t);
      if w[o] < c {
        MismatchAtZero(Neighbour, t, words, w, o);
        NeighbourAtZero(left, words, w, o);
      } else if w[o] > c {
        MismatchAtZero(Neighbour, t, words, w, o);
        NeighbourAtZero(right, words, w, o);
      } else if o + 1 < |w| {
        assert w[o..][1..] == w[o + 1..];
        if middle.Node? {
          NeighbourAtZero(middle, words, w, o + 1);
        }
      } else {
        assert |w[o..]| == 1 && Locate(t, w[o..]) == t;
        if middle.Node? && ref == NoRef {
          assert AtNode(Neighbour, t, words, w, o, 0) == Search(Neighbour, middle, words, w, o + 1, 0) == {};
        }
      }
  }

  /**
   * With no edit budget the prefix search also follows the walk of
   * `contains`. At the node reached it reports that node's own term when it
   * has one (and then nothing below it), and otherwise every term below its
   * mid link.
   */
  lemma {:induction false} PrefixAtZero(t: Tree, words: map<int, string>, w: string, o: nat)
    requires Registered(t, words) && o < |w|
    ensures var n := Locate(t, w[o..]);
      Search(Prefix, t, words, w, o, 0) ==
        if n.Nil? then {}
        else if n.ref != NoRef then {words[n.ref]}
        else if n.middle.Nil? then {}
        else AllResults(n.middle, words)
    decreases t
  {
    match t
    case Nil =>
    case Node(c, ref, left, middle, right) =>
      RefsOfChildren(t);
      if w[o] < c {
        MismatchAtZero(Prefix, t, words, w, o);
        PrefixAtZero(left, words, w, o);
      } else if w[o] > c {
        MismatchAtZero(Prefix, t, words, w, o);
        PrefixAtZero(right, words, w, o);
      } else if o + 1 < |w| {
        assert w[o..][1..] == w[o + 1..];
        if middle.Node? {
          PrefixAtZero(middle, words, w, o + 1);
        }
      } else {
        assert |w[o..]| == 1 && Locate(t, w[o..]) == t;
        if middle.Node? && ref == NoRef {
          assert AtNode(Prefix, t, words, w, o, 0) == Search(Prefix, middle, words, w, o + 1, 0) == AllResults(middle, words);
        }
      }
  }

  /**
   * Once the word is used up at a present node with a budget left, the
   * prefix search reports the term of every id in that node's subtree,
   * its low and high links included.
   */
  lemma PrefixCollectsSubtree(t: Tree, words: map<int, string>, w: string, o: nat, d: int)
    requires Registered(t, words) && o == |w| && t.Node? && d >= 0
    ensures Search(Prefix, t, words, w, o, d) == Image(words, Refs(t))
  {
    AllResultsImage(t, words);
  }
}
