/**
 * One node of the ternary search tree: a character, a word id (NoRef marks a
 * node where no word ends) and three exclusively owned child links.
 *
 * No node is ever shared between two parents, so a node and the subtree it
 * owns are modelled as one immutable value; a setter returns the node with
 * one slot replaced.
 */
module TernarySearchNode {

  /** The id of a node where no inserted word ends. */
  const NoRef: int := -1

  datatype Tree =
    | Nil
    | Node(ch: char, ref: int, left: Tree, middle: Tree, right: Tree)

  /** A fresh node: the given character, no word id, no children. */
  function NewNode(c: char): (n: Tree)
    ensures n.Node? && n.ch == c && n.ref == NoRef
    ensures n.left == Nil && n.middle == Nil && n.right == Nil
  {
    Node(c, NoRef, Nil, Nil, Nil)
  }

  /** Marks the node as the end of the word with id `r`; nothing else changes. */
  function SetComplete(n: Tree, r: int): (m: Tree)
    requires n.Node?
    ensures m.Node? && m.ref == r && m.ch == n.ch
    ensures m.left == n.left && m.middle == n.middle && m.right == n.right
  {
    n.(ref := r)
  }

  /** Overwrites the low slot only. */
  function SetLeft(n: Tree, child: Tree): (m: Tree)
    requires n.Node?
    ensures m.Node? && m.left == child
    ensures m.ch == n.ch && m.ref == n.ref && m.middle == n.middle && m.right == n.right
  {
    n.(left := child)
  }

  /** Overwrites the mid slot only. */
  function SetMiddle(n: Tree, child: Tree): (m: Tree)
    requires n.Node?
    ensures m.Node? && m.middle == child
    ensures m.ch == n.ch && m.ref == n.ref && m.left == n.left && m.right == n.right
  {
    n.(middle := child)
  }

  /** Overwrites the high slot only. */
  function SetRight(n: Tree, child: Tree): (m: Tree)
    requires n.Node?
    ensures m.Node? && m.right == child
    ensures m.ch == n.ch && m.ref == n.ref && m.left == n.left && m.middle == n.middle
  {
    n.(right := child)
  }
}
