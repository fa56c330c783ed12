/**
 * The reader for the pre-order index format: space-separated tokens, where
 * an entry is either "#" (no node) or a one-character token, a decimal word
 * id, and then the low, middle and high entries.
 *
 * The Java reader pulls characters from a stream; here the stream is the
 * remaining input string and every step returns what is left of it.
 */
module IndexReader {
  import opened Wrappers
  import opened TernarySearchNode
  import opened IntText

  /** The token after its first character: everything up to the next space, which is consumed. */
  function TokenTail(input: string): (r: (string, string))
    ensures |r.0| + |r.1| <= |input|
  {
    if input == [] then ([], [])
    else if input[0] == ' ' then ([], input[1..])
    else
      var (tail, rest) := TokenTail(input[1..]);
      ([input[0]] + tail, rest)
  }

  /**
   * `getNextElement`: the first character is always taken, even a space;
   * after it the token runs up to the next space, which is consumed. At the
   * end of the input the token is empty.
   */
  function NextToken(input: string): (r: (string, string))
    ensures r.0 == [] <==> input == []
    ensures input != [] ==> |r.1| < |input|
  {
    if input == [] then ([], [])
    else
      var (tail, rest) := TokenTail(input[1..]);
      ([input[0]] + tail, rest)
  }

  /** The token after its first character holds no space, and it and the rest split the input at one space or at its end. */
  lemma {:induction false} TokenTailSplits(input: string)
    ensures var (tok, rest) := TokenTail(input);
      (forall i | 0 <= i < |tok| :: tok[i] != ' ') &&
      ((input == tok && rest == []) || input == tok + " " + rest)
  {
    if input != [] && input[0] != ' ' {
      TokenTailSplits(input[1..]);
      assert input == [input[0]] + input[1..];
    }
  }

  /** A token and the rest split the input at one space or at its end; only the first character may be a space. */
  lemma NextTokenSplits(input: string)
    ensures var (tok, rest) := NextToken(input);
      (forall i | 1 <= i < |tok| :: tok[i] != ' ') &&
      ((input == tok && rest == []) || input == tok + " " + rest)
  {
    if input != [] {
      TokenTailSplits(input[1..]);
      assert input == [input[0]] + input[1..];
    }
  }

  /** The character loop of `getNextElement`, over the remaining input. */
  method GetNextElement(input: string) returns (s: string, rest: string)
    ensures (s, rest) == NextToken(input)
  {
    s := [];
    var i := 0;
    while i < |input|
      invariant 0 <= i <= |input|
      invariant i == 0 <==> s == []
      invariant i > 0 ==> NextToken(input).0 == s + TokenTail(input[i..]).0
      invariant i > 0 ==> NextToken(input).1 == TokenTail(input[i..]).1
    {
      var c := input[i];
      assert input[i..][0] == c && input[i..][1..] == input[i + 1..];
      if c != ' ' || |s| == 0 {
        assert s + ([c] + TokenTail(input[i + 1..]).0) == (s + [c]) + TokenTail(input[i + 1..]).0;
        s := s + [c];
        i := i + 1;
      } else {
        i := i + 1;
        assert NextToken(input).0 == s;
        return s, input[i..];
      }
    }
    assert i > 0 ==> s + TokenTail(input[i..]).0 == s;
    rest := input[i..];
  }

  datatype ParseError =
    | EndOfInput          // an empty token reaches `charAt(0)`
    | BadRef(token: string)  // `Integer.parseInt` rejects the id token

  datatype ParseResult = Parsed(tree: Tree, rest: string) | Failed(error: ParseError)

  /**
   * `readSubTree`: "#" is an absent node; a token of more than one character
   * is also read as an absent node (after a diagnostic), without reading an
   * id; otherwise the token's character, the id token, and the low, middle
   * and high entries in that order.
   */
  function ReadSubTree(input: string): (r: ParseResult)
    ensures r.Parsed? ==> |r.rest| < |input|
    decreases |input|
  {
    var (e, rest) := NextToken(input);
    if e == "#" then Parsed(Nil, rest)
    else if |e| > 1 then Parsed(Nil, rest)
    else if e == [] then Failed(EndOfInput)
    else
      var (refToken, rest1) := NextToken(rest);
      match ParseInt(refToken)
      case None => Failed(BadRef(refToken))
      case Some(ref) =>
        var node := SetComplete(NewNode(e[0]), ref);
        match ReadSubTree(rest1)
        case Failed(err) => Failed(err)
        case Parsed(left, rest2) =>
          match ReadSubTree(rest2)
          case Failed(err) => Failed(err)
          case Parsed(middle, rest3) =>
            match ReadSubTree(rest3)
            case Failed(err) => Failed(err)
            case Parsed(right, rest4) =>
              Parsed(SetRight(SetMiddle(SetLeft(node, left), middle), right), rest4)
  }

  // ---------------------------------------------------------------------
  // The grammar the reader accepts, as the token text of a tree

  /** A tree the format can carry: no node holds '#', and every id fits in 32 bits. */
  ghost predicate Encodable(t: Tree)
  {
    match t
    case Nil => true
    case Node(c, ref, left, middle, right) =>
      c != '#' && IntMin <= ref <= IntMax && Encodable(left) && Encodable(middle) && Encodable(right)
  }

  /** The pre-order token text of a tree followed by `rest`, every token followed by one space. */
  ghost function EncodingThen(t: Tree, rest: string): string
  {
    match t
    case Nil => "#" + " " + rest
    case Node(c, ref, left, middle, right) =>
      [c] + " " + (Decimal(ref) + " " + EncodingThen(left, EncodingThen(middle, EncodingThen(right, rest))))
  }

  lemma TokenTailWord(tok: string, x: string)
    requires forall i | 0 <= i < |tok| :: tok[i] != ' '
    ensures TokenTail(tok + " " + x) == (tok, x)
  {
    if tok != [] {
      assert (tok + " " + x)[0] == tok[0];
      assert (tok + " " + x)[1..] == tok[1..] + " " + x;
      TokenTailWord(tok[1..], x);
      assert [tok[0]] + tok[1..] == tok;
    } else {
      assert tok + " " + x == [' '] + x;
    }
  }

  /** A token followed by a space is read back whole, whatever follows. */
  lemma NextTokenWord(tok: string, x: string)
    requires tok != [] && forall i | 1 <= i < |tok| :: tok[i] != ' '
    ensures NextToken(tok + " " + x) == (tok, x)
  {
    assert (tok + " " + x)[0] == tok[0];
    assert (tok + " " + x)[1..] == tok[1..] + " " + x;
    TokenTailWord(tok[1..], x);
    assert [tok[0]] + tok[1..] == tok;
  }

  /** How `readSubTree` builds a node from its five parts. */
  lemma ReadNode(input: string, c: char, ref: int, left: Tree, middle: Tree, right: Tree,
                 rest0: string, rest1: string, rest2: string, rest3: string, rest4: string)
    requires c != '#' && NextToken(input) == ([c], rest0)
    requires NextToken(rest0) == (Decimal(ref), rest1) && ParseInt(Decimal(ref)) == Some(ref)
    requires ReadSubTree(rest1) == Parsed(left, rest2)
    requires ReadSubTree(rest2) == Parsed(middle, rest3)
    requires ReadSubTree(rest3) == Parsed(right, rest4)
    ensures ReadSubTree(input) == Parsed(Node(c, ref, left, middle, right), rest4)
  {
  }

  /** Reading the text of an encodable tree gives back the tree and leaves what follows untouched. */
  lemma {:induction false} ReadEncoding(t: Tree, rest: string)
    requires Encodable(t)
    ensures ReadSubTree(EncodingThen(t, rest)) == Parsed(t, rest)
  {
    match t
    case Nil =>
      NextTokenWord("#", rest);
    case Node(c, ref, left, middle, right) =>
      var rest3 := EncodingThen(right, rest);
      var rest2 := EncodingThen(middle, rest3);
      var rest1 := EncodingThen(left, rest2);
      var rest0 := Decimal(ref) + " " + rest1;
      NextTokenWord([c], rest0);
      NextTokenWord(Decimal(ref), rest1);
      ParseDecimal(ref);
      ReadEncoding(left, rest2);
      ReadEncoding(middle, rest3);
      ReadEncoding(right, rest);
      ReadNode(EncodingThen(t, rest), c, ref, left, middle, right, rest0, rest1, rest2, rest3, rest);
  }

  /** A "#" token followed by a space is an absent node. */
  lemma ReadHash(rest: string)
    ensures ReadSubTree("# " + rest) == Parsed(Nil, rest)
  {
    NextTokenWord("#", rest);
  }

  /** The last "#" of a text ends at the end of the input rather than at a space. */
  lemma ReadLastHash()
    ensures ReadSubTree("#") == Parsed(Nil, "")
  {
    assert NextToken("#").0 == "#" && NextToken("#").1 == "";
  }

  lemma ReadExampleHashes()
    ensures ReadSubTree("# # #") == Parsed(Nil, "# #")
    ensures ReadSubTree("# #") == Parsed(Nil, "#")
  {
    ReadHash("# #");
    assert "# " + "# #" == "# # #";
    ReadHash("#");
    assert "# " + "#" == "# #";
  }

  lemma ReadExampleHigh()
    ensures ReadSubTree("b 9 # # #") == Parsed(Node('b', 9, Nil, Nil, Nil), "")
  {
    ReadLastHash();
    ReadExampleHashes();
    ParseDecimal(9);
    NextTokenWord("b", "9 # # #");
    NextTokenWord("9", "# # #");
    ReadNode("b 9 # # #", 'b', 9, Nil, Nil, Nil, "9 # # #", "# # #", "# #", "#", "");
  }

  lemma ReadExampleLow()
    ensures ReadSubTree("# # b 9 # # #") == Parsed(Nil, "# b 9 # # #")
  {
    ReadHash("# b 9 # # #");
    assert "# " + "# b 9 # # #" == "# # b 9 # # #";
  }

  lemma ReadExampleMiddle()
    ensures ReadSubTree("# b 9 # # #") == Parsed(Nil, "b 9 # # #")
  {
    ReadHash("b 9 # # #");
    assert "# " + "b 9 # # #" == "# b 9 # # #";
  }

  /** "a 5 # # b 9 # # #": root 'a' with id 5, no low or middle child, high child 'b' with id 9. */
  lemma ReadExample()
    ensures ReadSubTree("a 5 # # b 9 # # #") == Parsed(Node('a', 5, Nil, Nil, Node('b', 9, Nil, Nil, Nil)), "")
  {
    ReadExampleHigh();
    ReadExampleLow();
    ReadExampleMiddle();
    ParseDecimal(5);
    NextTokenWord("a", "5 # # b 9 # # #");
    NextTokenWord("5", "# # b 9 # # #");
    ReadNode("a 5 # # b 9 # # #", 'a', 5, Nil, Nil, Node('b', 9, Nil, Nil, Nil),
             "5 # # b 9 # # #", "# # b 9 # # #", "# b 9 # # #", "b 9 # # #", "");
  }

  /** How `readSubTree` fails when the high entry of a node fails. */
  lemma ReadNodeHighFails(input: string, c: char, ref: int, left: Tree, middle: Tree,
                          rest0: string, rest1: string, rest2: string, rest3: string, err: ParseError)
    requires c != '#' && NextToken(input) == ([c], rest0)
    requires NextToken(rest0) == (Decimal(ref), rest1) && ParseInt(Decimal(ref)) == Some(ref)
    requires ReadSubTree(rest1) == Parsed(left, rest2)
    requires ReadSubTree(rest2) == Parsed(middle, rest3)
    requires ReadSubTree(rest3) == Failed(err)
    ensures ReadSubTree(input) == Failed(err)
  {
  }

  lemma ReadEmpty()
    ensures ReadSubTree("") == Failed(EndOfInput)
  {
  }

  /**
   * "a 5 # b 9 # # #" gives 'a' only one "#" before 'b', so 'b' becomes its
   * middle child and the high entry of 'a' meets the end of the input.
   */
  lemma ReadMissingEntry()
    ensures ReadSubTree("a 5 # b 9 # # #") == Failed(EndOfInput)
  {
    ReadExampleHigh();
    ReadExampleMiddle();
    ReadEmpty();
    ParseDecimal(5);
    NextTokenWord("a", "5 # b 9 # # #");
    NextTokenWord("5", "# b 9 # # #");
    ReadNodeHighFails("a 5 # b 9 # # #", 'a', 5, Nil, Node('b', 9, Nil, Nil, Nil),
                      "5 # b 9 # # #", "# b 9 # # #", "b 9 # # #", "", EndOfInput);
  }

  /** A token of more than one character is read as an absent node, and no id token is read after it. */
  lemma ReadLongToken()
    ensures ReadSubTree("ab 5 # # #") == Parsed(Nil, "5 # # #")
  {
    NextTokenWord("ab", "5 # # #");
  }

  /** An id token that is not a decimal number stops the reader. */
  lemma ReadBadRef()
    ensures ReadSubTree("a x # # #") == Failed(BadRef("x"))
  {
    NextTokenWord("a", "x # # #");
    NextTokenWord("x", "# # #");
    assert ParseInt("x") == None;
  }
}
