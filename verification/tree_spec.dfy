/**
 * What a ternary search tree means: its size, height, the ordering of its
 * siblings, the words it holds, the walk `contains` makes, and the tree that
 * `add` produces, stated as functions over tree values, with the lemmas that
 * connect them.
 */
module TreeSpec {
  import opened TernarySearchNode

  // ---------------------------------------------------------------------
  // Shape

  function Size(t: Tree): nat
  {
    match t
    case Nil => 0
    case Node(_, _, left, middle, right) => 1 + Size(left) + Size(middle) + Size(right)
  }

  /** 0 for an absent node, otherwise one more than the tallest child. */
  function Height(t: Tree): (h: nat)
    ensures h == 0 <==> t == Nil
    ensures t.Node? ==> h > Height(t.left) && h > Height(t.middle) && h > Height(t.right)
    ensures t.Node? ==> h == Height(t.left) + 1 || h == Height(t.middle) + 1 || h == Height(t.right) + 1
  {
    match t
    case Nil => 0
    case Node(_, _, left, middle, right) =>
      var hl, hm, hr := Height(left), Height(middle), Height(right);
      1 + (if hr > (if hl > hm then hl else hm) then hr else if hl > hm then hl else hm)
  }

  /** The characters that compete for the current position: the node and its low/high siblings. */
  function FirstChars(t: Tree): set<char>
  {
    match t
    case Nil => {}
    case Node(c, _, left, _, right) => {c} + FirstChars(left) + FirstChars(right)
  }

  /** Sibling order: everything down a low link is smaller, everything down a high link larger. */
  ghost predicate Ordered(t: Tree)
  {
    match t
    case Nil => true
    case Node(c, _, left, middle, right) =>
      (forall x | x in FirstChars(left) :: x < c) &&
      (forall x | x in FirstChars(right) :: c < x) &&
      Ordered(left) && Ordered(middle) && Ordered(right)
  }

  /** The word ids stored in the tree. */
  function Refs(t: Tree): set<int>
  {
    match t
    case Nil => {}
    case Node(_, ref, left, middle, right) =>
      (if ref != NoRef then {ref} else {}) + Refs(left) + Refs(middle) + Refs(right)
  }

  /** Every word id in the tree has an entry in the id -> term table. */
  ghost predicate Registered(t: Tree, words: map<int, string>)
  {
    Refs(t) <= words.Keys
  }

  /** Every node without a mid child ends a word. */
  ghost predicate LeavesComplete(t: Tree)
  {
    match t
    case Nil => true
    case Node(_, ref, left, middle, right) =>
      (middle == Nil ==> ref != NoRef) &&
      LeavesComplete(left) && LeavesComplete(middle) && LeavesComplete(right)
  }

  // ---------------------------------------------------------------------
  // The words of a tree

  /**
   * `s` is spelled by some path of the tree: low/high links stay at the same
   * position, a mid link moves to the next character, and the node reached
   * by the last character carries a word id. This ignores sibling order.
   */
  ghost predicate Spells(t: Tree, s: string)
  {
    match t
    case Nil => false
    case Node(c, ref, left, middle, right) =>
      s != [] &&
      (Spells(left, s) || Spells(right, s) ||
       (s[0] == c && (if |s| == 1 then ref != NoRef else Spells(middle, s[1..]))))
  }

  /** The node the exact-match walk of `contains` stops at, or Nil when it falls off the tree. */
  function Locate(t: Tree, s: string): (n: Tree)
    requires s != []
    ensures n.Node? ==> n.ch == s[|s| - 1] && Refs(n) <= Refs(t) && Size(n) <= Size(t)
  {
    match t
    case Nil => Nil
    case Node(c, _, left, middle, right) =>
      if c > s[0] then Locate(left, s)
      else if c < s[0] then Locate(right, s)
      else if |s| == 1 then t
      else Locate(middle, s[1..])
  }

  /** The answer of `contains`: the walk ends on a node carrying a word id. */
  function Member(t: Tree, s: string): (m: bool)
    ensures m ==> s != [] && t.Node? && Locate(t, s).Node?
  {
    s != [] && Locate(t, s).Node? && Locate(t, s).ref != NoRef
  }

  /** The number of nodes the `contains` loop visits before it answers. */
  function Probe(t: Tree, s: string): (p: nat)
    requires s != []
    ensures p == 0 <==> t == Nil
    ensures p <= Height(t)
  {
    match t
    case Nil => 0
    case Node(c, _, left, middle, right) =>
      if c > s[0] then 1 + Probe(left, s)
      else if c < s[0] then 1 + Probe(right, s)
      else if |s| == 1 then 1
      else 1 + Probe(middle, s[1..])
  }

  // ---------------------------------------------------------------------
  // Insertion

  /** The mid-linked chain `add` hangs off the tree for an unmatched suffix. */
  function Chain(s: string, r: int): (c: Tree)
    ensures c == Nil <==> s == []
    ensures c.Node? ==> c.ch == s[0] && c.left == Nil && c.right == Nil
  {
    if s == [] then Nil
    else if |s| == 1 then SetComplete(NewNode(s[0]), r)
    else SetMiddle(NewNode(s[0]), Chain(s[1..], r))
  }

  /**
   * The tree `add(s, r)` leaves behind. When the walk runs out of characters
   * on a node with a mid child, that node gets id `r`; when it runs out on a
   * node without one, nothing changes (the old id stays); when it falls off
   * the tree, the rest of `s` is hung there as a chain.
   */
  function Insert(t: Tree, s: string, r: int): (u: Tree)
    requires s != [] || t == Nil
    ensures s != [] ==> u.Node?
    ensures t.Node? ==> u.ch == t.ch
  {
    match t
    case Nil => Chain(s, r)
    case Node(c, _, left, middle, right) =>
      if c > s[0] then SetLeft(t, Insert(left, s, r))
      else if c == s[0] then
        if |s| == 1 then (if middle == Nil then t else SetComplete(t, r))
        else SetMiddle(t, Insert(middle, s[1..], r))
      else SetRight(t, Insert(right, s, r))
  }

  /** The number of nodes `add(s, _)` allocates: the length of the unmatched suffix. */
  function NewNodes(t: Tree, s: string): (n: nat)
    requires s != [] || t == Nil
    ensures n <= |s|
  {
    match t
    case Nil => |s|
    case Node(c, _, left, middle, right) =>
      if c > s[0] then NewNodes(left, s)
      else if c == s[0] then (if |s| == 1 then 0 else NewNodes(middle, s[1..]))
      else NewNodes(right, s)
  }

  // ---------------------------------------------------------------------
  // Paths: how the parent slot of the `add` loop is named on values

  datatype Dir = Left | Middle | Right

  function Child(t: Tree, d: Dir): Tree
    requires t.Node?
  {
    match d
    case Left => t.left
    case Middle => t.middle
    case Right => t.right
  }

  function WithChild(t: Tree, d: Dir, x: Tree): (u: Tree)
    requires t.Node?
    ensures u.Node? && Child(u, d) == x
  {
    match d
    case Left => SetLeft(t, x)
    case Middle => SetMiddle(t, x)
    case Right => SetRight(t, x)
  }

  /** The subtree at the end of path `p`, Nil when the path falls off. */
  function Sub(t: Tree, p: seq<Dir>): Tree
  {
    if p == [] || t == Nil then (if p == [] then t else Nil)
    else Sub(Child(t, p[0]), p[1..])
  }

  /** `t` with the subtree at the end of `p` replaced by `x`. */
  function ReplaceAt(t: Tree, p: seq<Dir>, x: Tree): Tree
  {
    if p == [] then x
    else if t == Nil then t
    else WithChild(t, p[0], ReplaceAt(Child(t, p[0]), p[1..], x))
  }

  /** The links the `add` loop follows for `s` before it stops. */
  function Descent(t: Tree, s: string): seq<Dir>
    requires s != []
  {
    match t
    case Nil => []
    case Node(c, _, left, middle, right) =>
      if c > s[0] then [Left] + Descent(left, s)
      else if c < s[0] then [Right] + Descent(right, s)
      else if |s| == 1 then []
      else [Middle] + Descent(middle, s[1..])
  }

  lemma SubSnoc(t: Tree, p: seq<Dir>, d: Dir)
    requires Sub(t, p).Node?
    ensures Sub(t, p + [d]) == Child(Sub(t, p), d)
  {
    if p != [] {
      assert (p + [d])[1..] == p[1..] + [d];
      SubSnoc(Child(t, p[0]), p[1..], d);
    }
  }

  lemma ReplaceSnoc(t: Tree, p: seq<Dir>, d: Dir, x: Tree)
    requires Sub(t, p).Node?
    ensures ReplaceAt(t, p + [d], x) == ReplaceAt(t, p, WithChild(Sub(t, p), d, x))
  {
    if p != [] {
      assert (p + [d])[1..] == p[1..] + [d];
      ReplaceSnoc(Child(t, p[0]), p[1..], d, x);
    }
  }

  lemma ReplaceCons(t: Tree, d: Dir, q: seq<Dir>, x: Tree)
    requires t.Node?
    ensures Sub(t, [d] + q) == Sub(Child(t, d), q)
    ensures ReplaceAt(t, [d] + q, x) == WithChild(t, d, ReplaceAt(Child(t, d), q, x))
  {
    assert ([d] + q)[0] == d && ([d] + q)[1..] == q;
  }

  lemma ReplaceSame(t: Tree, p: seq<Dir>)
    ensures ReplaceAt(t, p, Sub(t, p)) == t
  {
    if p != [] && t != Nil {
      ReplaceSame(Child(t, p[0]), p[1..]);
    }
  }

  lemma ChainShape(s: string, r: int)
    ensures Size(Chain(s, r)) == |s| && Height(Chain(s, r)) == |s|
    ensures Ordered(Chain(s, r))
    ensures s != [] ==> FirstChars(Chain(s, r)) == {s[0]}
    ensures Refs(Chain(s, r)) <= {r}
  {
    if |s| > 1 {
      ChainShape(s[1..], r);
    }
  }
}
