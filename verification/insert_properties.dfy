/**
 * What `add` guarantees: the word becomes a member, earlier members stay,
 * nothing else becomes a member, exactly the unmatched suffix is allocated,
 * it is hung at the slot where the walk fell off, and the sibling order and
 * the "every leaf ends a word" invariant are kept.
 */
module InsertProperties {
  import opened TernarySearchNode
  import opened TreeSpec

  lemma {:induction false} ChainMembers(s: string, r: int, s': string)
    requires s != []
    ensures Member(Chain(s, r), s') <==> s' == s && r != NoRef
  {
    if s' != [] && s'[0] == s[0] && |s| > 1 && |s'| > 1 {
      ChainMembers(s[1..], r, s'[1..]);
      if s'[1..] == s[1..] {
        assert s' == [s'[0]] + s'[1..] && s == [s[0]] + s[1..];
      }
    }
  }

  /** After `add(s, r)` with a real id, `contains(s)` holds. */
  lemma {:induction false} InsertContains(t: Tree, s: string, r: int)
    requires s != [] && r != NoRef && LeavesComplete(t)
    ensures Member(Insert(t, s, r), s)
  {
    match t
    case Nil => ChainMembers(s, r, s);
    case Node(c, _, left, middle, right) =>
      if c > s[0] {
        InsertContains(left, s, r);
      } else if c < s[0] {
        InsertContains(right, s, r);
      } else if |s| > 1 {
        InsertContains(middle, s[1..], r);
      }
  }

  /** `add` with a real id never loses a word. */
  lemma {:induction false} InsertKeeps(t: Tree, s: string, r: int, s': string)
    requires s != [] && r != NoRef && Member(t, s')
    ensures Member(Insert(t, s, r), s')
  {
    match t
    case Nil =>
    case Node(c, _, left, middle, right) =>
      if c > s[0] && c > s'[0] {
        InsertKeeps(left, s, r, s');
      } else if c < s[0] && c < s'[0] {
        InsertKeeps(right, s, r, s');
      } else if c == s[0] && c == s'[0] && |s| > 1 && |s'| > 1 {
        InsertKeeps(middle, s[1..], r, s'[1..]);
      }
  }

  /** The only word `add(s, r)` can make a member is `s` itself. */
  lemma {:induction false} InsertAddsOnly(t: Tree, s: string, r: int, s': string)
    requires s != [] && Member(Insert(t, s, r), s')
    ensures Member(t, s') || s' == s
  {
    match t
    case Nil => ChainMembers(s, r, s');
    case Node(c, _, left, middle, right) =>
      if c > s[0] && c > s'[0] {
        InsertAddsOnly(left, s, r, s');
      } else if c < s[0] && c < s'[0] {
        InsertAddsOnly(right, s, r, s');
      } else if c == s[0] && c == s'[0] && |s| > 1 && |s'| > 1 {
        InsertAddsOnly(middle, s[1..], r, s'[1..]);
        if s'[1..] == s[1..] {
          assert s' == [s'[0]] + s'[1..] && s == [s[0]] + s[1..];
        }
      }
  }

  /** The members after `add(s, r)` are exactly the members before plus `s`. */
  lemma InsertMembers(t: Tree, s: string, r: int, s': string)
    requires s != [] && r != NoRef && LeavesComplete(t)
    ensures Member(Insert(t, s, r), s') <==> Member(t, s') || s' == s
  {
    if Member(Insert(t, s, r), s') {
      InsertAddsOnly(t, s, r, s');
    }
    if s' == s {
      InsertContains(t, s, r);
    } else if Member(t, s') {
      InsertKeeps(t, s, r, s');
    }
  }

  /** `add` allocates one node per character of the unmatched suffix, none when the path already exists. */
  lemma {:induction false} InsertSize(t: Tree, s: string, r: int)
    requires s != []
    ensures Size(Insert(t, s, r)) == Size(t) + NewNodes(t, s)
    ensures NewNodes(t, s) == 0 <==> Locate(t, s).Node?
  {
    match t
    case Nil => ChainShape(s, r);
    case Node(c, _, left, middle, right) =>
      if c > s[0] {
        InsertSize(left, s, r);
      } else if c < s[0] {
        InsertSize(right, s, r);
      } else if |s| > 1 {
        InsertSize(middle, s[1..], r);
      }
  }

  /** `add` keeps the sibling order, and only `s[0]` can join the characters competing at the top level. */
  lemma {:induction false} InsertOrdered(t: Tree, s: string, r: int)
    requires s != [] && Ordered(t)
    ensures Ordered(Insert(t, s, r))
    ensures FirstChars(Insert(t, s, r)) <= FirstChars(t) + {s[0]}
  {
    match t
    case Nil => ChainShape(s, r);
    case Node(c, _, left, middle, right) =>
      if c > s[0] {
        InsertOrdered(left, s, r);
      } else if c < s[0] {
        InsertOrdered(right, s, r);
      } else if |s| > 1 {
        InsertOrdered(middle, s[1..], r);
      }
  }

  /** With a real id, `add` keeps every mid-less node carrying an id. */
  lemma {:induction false} InsertLeavesComplete(t: Tree, s: string, r: int)
    requires s != [] && r != NoRef && LeavesComplete(t)
    ensures LeavesComplete(Insert(t, s, r))
  {
    match t
    case Nil => ChainLeaves(s, r);
    case Node(c, _, left, middle, right) =>
      if c > s[0] {
        InsertLeavesComplete(left, s, r);
      } else if c < s[0] {
        InsertLeavesComplete(right, s, r);
      } else if |s| > 1 {
        InsertLeavesComplete(middle, s[1..], r);
      }
  }

  lemma ChainLeaves(s: string, r: int)
    requires s != [] && r != NoRef
    ensures LeavesComplete(Chain(s, r))
  {
    if |s| > 1 {
      ChainLeaves(s[1..], r);
    }
  }

  /** The only id `add(s, r)` can bring into the tree is `r`. */
  lemma {:induction false} InsertRefs(t: Tree, s: string, r: int)
    requires s != []
    ensures Refs(Insert(t, s, r)) <= Refs(t) + {r}
  {
    match t
    case Nil => ChainShape(s, r);
    case Node(c, _, left, middle, right) =>
      if c > s[0] {
        InsertRefs(left, s, r);
      } else if c < s[0] {
        InsertRefs(right, s, r);
      } else if |s| > 1 {
        InsertRefs(middle, s[1..], r);
      }
  }

  /** `add` never lowers the tree and raises it by at most the number of new nodes. */
  lemma {:induction false} InsertHeight(t: Tree, s: string, r: int)
    requires s != []
    ensures Height(t) <= Height(Insert(t, s, r)) <= Height(t) + NewNodes(t, s)
  {
    match t
    case Nil => ChainShape(s, r);
    case Node(c, _, left, middle, right) =>
      var k := NewNodes(t, s);
      if c > s[0] {
        InsertHeight(left, s, r);
        ChildHeight(t, Left, Insert(left, s, r), k);
      } else if c < s[0] {
        InsertHeight(right, s, r);
        ChildHeight(t, Right, Insert(right, s, r), k);
      } else if |s| > 1 {
        InsertHeight(middle, s[1..], r);
        ChildHeight(t, Middle, Insert(middle, s[1..], r), k);
      }
  }

  /** Replacing one child by a tree at most `k` taller, and no lower, does the same to the node. */
  lemma ChildHeight(t: Tree, d: Dir, x: Tree, k: nat)
    requires t.Node? && Height(Child(t, d)) <= Height(x) <= Height(Child(t, d)) + k
    ensures Height(t) <= Height(WithChild(t, d, x)) <= Height(t) + k
  {
    var u := WithChild(t, d, x);
    assert u.ch == t.ch && u.ref == t.ref;
  }

  /**
   * Where `add` changes the tree when the walk falls off: the chain for the
   * unmatched suffix is hung at exactly the empty slot the walk reached.
   */
  lemma {:induction false} InsertHangsChain(t: Tree, s: string, r: int)
    requires s != [] && NewNodes(t, s) > 0
    ensures var p, k := Descent(t, s), NewNodes(t, s);
      Sub(t, p) == Nil && Insert(t, s, r) == ReplaceAt(t, p, Chain(s[|s| - k..], r))
  {
    match t
    case Nil =>
    case Node(c, _, left, middle, right) =>
      var k := NewNodes(t, s);
      if c > s[0] {
        InsertHangsChain(left, s, r);
        ReplaceCons(t, Left, Descent(left, s), Chain(s[|s| - k..], r));
      } else if c < s[0] {
        InsertHangsChain(right, s, r);
        ReplaceCons(t, Right, Descent(right, s), Chain(s[|s| - k..], r));
      } else {
        InsertHangsChain(middle, s[1..], r);
        assert s[1..][|s[1..]| - k..] == s[|s| - k..];
        ReplaceCons(t, Middle, Descent(middle, s[1..]), Chain(s[|s| - k..], r));
      }
  }

  /**
   * Where `add` changes the tree when the word runs out inside it: only the
   * node the walk ended on may change, and only its id, and only when it
   * has a mid child.
   */
  lemma {:induction false} InsertMarksNode(t: Tree, s: string, r: int)
    requires s != [] && NewNodes(t, s) == 0
    ensures var p, n := Descent(t, s), Locate(t, s);
      Sub(t, p) == n && n.Node? &&
      Insert(t, s, r) == ReplaceAt(t, p, if n.middle == Nil then n else SetComplete(n, r))
  {
    match t
    case Node(c, _, left, middle, right) =>
      if c > s[0] {
        InsertMarksNode(left, s, r);
      } else if c < s[0] {
        InsertMarksNode(right, s, r);
      } else if |s| > 1 {
        InsertMarksNode(middle, s[1..], r);
      }
  }

  /** The height of a tree never exceeds its number of nodes. */
  lemma {:induction false} HeightAtMostSize(t: Tree)
    ensures Height(t) <= Size(t)
  {
    match t
    case Nil =>
    case Node(_, _, left, middle, right) =>
      HeightAtMostSize(left);
      HeightAtMostSize(middle);
      HeightAtMostSize(right);
  }

  lemma {:induction false} SpellsFirstChar(t: Tree, s: string)
    requires Spells(t, s)
    ensures s != [] && s[0] in FirstChars(t)
  {
    match t
    case Node(c, _, left, middle, right) =>
      if Spells(left, s) {
        SpellsFirstChar(left, s);
      } else if Spells(right, s) {
        SpellsFirstChar(right, s);
      }
  }

  /**
   * In an ordered tree the single walk of `contains` finds exactly the words
   * the tree spells along any path.
   */
  lemma {:induction false} MemberIffSpells(t: Tree, s: string)
    requires Ordered(t)
    ensures Member(t, s) <==> Spells(t, s)
  {
    match t
    case Nil =>
    case Node(c, _, left, middle, right) =>
      if s != [] {
        if Spells(left, s) {
          SpellsFirstChar(left, s);
        }
        if Spells(right, s) {
          SpellsFirstChar(right, s);
        }
        if c > s[0] {
          MemberIffSpells(left, s);
        } else if c < s[0] {
          MemberIffSpells(right, s);
        } else if |s| > 1 {
          MemberIffSpells(middle, s[1..]);
        }
      }
  }

  /** On an ordered tree, the words spelled after `add(s, r)` are those spelled before plus `s`. */
  lemma InsertSpells(t: Tree, s: string, r: int, s': string)
    requires s != [] && r != NoRef && Ordered(t) && LeavesComplete(t)
    ensures Spells(Insert(t, s, r), s') <==> Spells(t, s') || s' == s
  {
    InsertOrdered(t, s, r);
    InsertMembers(t, s, r, s');
    MemberIffSpells(t, s');
    MemberIffSpells(Insert(t, s, r), s');
  }

  // ---------------------------------------------------------------------
  // The three ways the `add` loop can end, stated on the slot it stopped at

  /** The direction the `add` walk takes at node `n` for character `c`. */
  function Turn(n: Tree, c: char): (d: Dir)
    requires n.Node?
    ensures d == Middle <==> n.ch == c
  {
    if n.ch > c then Left else if n.ch == c then Middle else Right
  }

  /**
   * One step of the `add` walk from `cur`, reached from the root by `path`
   * with `s[idx..]` left to place: the walk's remaining links, allocation
   * count and stopping node are those of the step's target, or, when the
   * step used up the word, the walk stops at `cur`.
   */
  lemma WalkStep(t: Tree, s: string, idx: nat, path: seq<Dir>, cur: Tree)
    requires idx < |s| && cur.Node? && cur == Sub(t, path)
    requires Descent(t, s) == path + Descent(cur, s[idx..])
    requires NewNodes(t, s) == NewNodes(cur, s[idx..]) && Locate(t, s) == Locate(cur, s[idx..])
    ensures var d := Turn(cur, s[idx]);
      var next, idx' := Child(cur, d), if d == Middle then idx + 1 else idx;
      next == Sub(t, path + [d]) &&
      (idx' < |s| ==>
        Descent(t, s) == path + [d] + Descent(next, s[idx'..]) &&
        NewNodes(t, s) == NewNodes(next, s[idx'..]) && Locate(t, s) == Locate(next, s[idx'..])) &&
      (idx' == |s| ==> Locate(t, s) == cur && Descent(t, s) == path && NewNodes(t, s) == 0)
  {
    var d := Turn(cur, s[idx]);
    var rest := s[idx..];
    assert rest[0] == s[idx];
    SubSnoc(t, path, d);
    if d == Middle && idx + 1 < |s| {
      assert rest[1..] == s[idx + 1..];
    }
    var idx' := if d == Middle then idx + 1 else idx;
    if idx' < |s| {
      assert path + [d] + Descent(Child(cur, d), s[idx'..]) == path + ([d] + Descent(Child(cur, d), s[idx'..]));
    }
  }

  /**
   * The walk fell off the tree at the slot `d` of `parent` (or the tree was
   * empty): `add` hangs the chain of the unmatched suffix there.
   */
  lemma FallsOff(t: Tree, s: string, r: int, idx: nat, parentPath: seq<Dir>, d: Dir, parent: Tree)
    requires idx < |s| && NewNodes(t, s) == |s| - idx
    requires t == Nil ==> Descent(t, s) == []
    requires t != Nil ==> Descent(t, s) == parentPath + [d] && parent == Sub(t, parentPath) && parent.Node?
    ensures Insert(t, s, r) ==
      if t == Nil then Chain(s[idx..], r)
      else ReplaceAt(t, parentPath, WithChild(parent, d, Chain(s[idx..], r)))
  {
    InsertHangsChain(t, s, r);
    assert s[|s| - NewNodes(t, s)..] == s[idx..];
    if t != Nil {
      ReplaceSnoc(t, parentPath, d, Chain(s[idx..], r));
    }
  }

  /**
   * The word ran out on `parent`, the node the exact walk stops at: `add`
   * gives it the id when it has a mid child and changes nothing otherwise.
   */
  lemma RunsOut(t: Tree, s: string, r: int, parentPath: seq<Dir>, parent: Tree)
    requires s != [] && Descent(t, s) == parentPath && NewNodes(t, s) == 0
    requires parent == Locate(t, s) && parent.Node?
    ensures Insert(t, s, r) ==
      if parent.middle == Nil then t else ReplaceAt(t, parentPath, SetComplete(parent, r))
  {
    InsertMarksNode(t, s, r);
    if parent.middle == Nil {
      ReplaceSame(t, parentPath);
    }
  }
}
