/**
 * The approximate searches. `nearNeighbourSearch`, `nearSearchWithSuffix`
 * and `beginWith` are three copies of one recursive algorithm that differ
 * only at two boundaries; here they are one function with a `Variant`.
 * The Java versions add into a caller-owned set; these return the set they
 * would add.
 */
module ApproximateSearch {
  import opened TernarySearchNode
  import opened TreeSpec
  import opened IntText

  datatype Variant =
    | Neighbour   // nearNeighbourSearch
    | WithSuffix  // nearSearchWithSuffix: also emits "term,suffix,distance" overflow records
    | Prefix      // beginWith: collects the whole subtree once the word is used up

  /** The terms of a set of word ids. */
  ghost function Image(words: map<int, string>, refs: set<int>): set<string>
    requires refs <= words.Keys
  {
    set r | r in refs :: words[r]
  }

  /** Every overflow record that could be built from these ids, suffixes of `w` and budgets up to `dmax`. */
  ghost function Records(words: map<int, string>, refs: set<int>, w: string, dmax: int): set<string>
    requires refs <= words.Keys
  {
    set r, k, e | r in refs && 0 <= k <= |w| && 0 <= e <= dmax :: words[r] + "," + w[k..] + "," + Decimal(e)
  }

  /** `returnAllResults`: the term of every node of the subtree that carries a word id. */
  function AllResults(t: Tree, words: map<int, string>): (r: set<string>)
    requires Registered(t, words)
    ensures r <= words.Values
  {
    match t
    case Nil => {}
    case Node(_, ref, left, middle, right) =>
      (if ref != NoRef then {words[ref]} else {}) +
      AllResults(left, words) + AllResults(middle, words) + AllResults(right, words)
  }

  /**
   * The terms the search adds for `w` from position `o` at node `t` with
   * edit budget `d`. Low/high calls keep `o` and `d`, an exact mid step
   * advances `o`, and every other call spends one unit of `d`.
   */
  function Search(v: Variant, t: Tree, words: map<int, string>, w: string, o: nat, d: int): (r: set<string>)
    requires Registered(t, words) && o <= |w|
    ensures v != WithSuffix ==> r <= words.Values
    decreases d, |w| - o, t, 1
  {
    if t.Nil? || d < 0 then {}
    else if |w| <= o then (if v == Prefix then AllResults(t, words) else {})
    else
      (if d > 0 || w[o] < t.ch then Search(v, t.left, words, w, o, d) else {}) +
      AtNode(v, t, words, w, o, d) +
      (if d > 0 || w[o] > t.ch then Search(v, t.right, words, w, o, d) else {})
  }

  /** What the search adds at node `t` itself, between its low and its high call. */
  function AtNode(v: Variant, t: Tree, words: map<int, string>, w: string, o: nat, d: int): (r: set<string>)
    requires Registered(t, words) && o < |w| && t.Node? && d >= 0
    ensures v != WithSuffix ==> r <= words.Values
    decreases d, |w| - o, t, 0
  {
    if t.middle.Nil? then
      // terminal regime
      var k := if w[o] == t.ch then o + 1 else o;
      if |w| - k <= d then
        (if t.ref != NoRef then {words[t.ref]} else {})  // a leaf without an id adds nothing
      else if v == WithSuffix && t.ref != NoRef then
        {words[t.ref] + "," + w[k..] + "," + Decimal(d)}
      else {}
    else if t.ref != NoRef && |w| - (o + 1) <= d then
      // early accept: the node's term is taken and its mid subtree is not visited
      var k := if w[o] == t.ch then o + 1 else o;
      if |w| - k <= d then {words[t.ref]} else {}
    else if w[o] == t.ch then
      Search(v, t.middle, words, w, o + 1, d)
    else
      // substitution, extra dictionary character, extra query character
      Search(v, t.middle, words, w, o + 1, d - 1) +
      Search(v, t.middle, words, w, o, d - 1) +
      Search(v, t, words, w, o + 1, d - 1)
  }

  /** The number of invocations of `nearNeighbourSearch` (the increments of `singleSearchCost`). */
  function NeighbourCalls(t: Tree, w: string, o: nat, d: int): (n: nat)
    requires o <= |w|
    decreases d, |w| - o, t
    ensures n >= 1
  {
    if t.Nil? || d < 0 || |w| <= o then 1
    else
      1 +
      (if d > 0 || w[o] < t.ch then NeighbourCalls(t.left, w, o, d) else 0) +
      (if t.middle.Nil? || (t.ref != NoRef && |w| - (o + 1) <= d) then 0
       else if w[o] == t.ch then NeighbourCalls(t.middle, w, o + 1, d)
       else NeighbourCalls(t.middle, w, o + 1, d - 1) + NeighbourCalls(t.middle, w, o, d - 1) +
            NeighbourCalls(t, w, o + 1, d - 1)) +
      (if d > 0 || w[o] > t.ch then NeighbourCalls(t.right, w, o, d) else 0)
  }
}
