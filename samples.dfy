/** Concrete archives: what the model does on a few small inputs. */
module Samples {
  import opened Trees
  import opened Builder
  import opened Codes
  import opened Decoding

  /** "^a" runs out after the left child: the right child is the empty
      node Leaf('\0'), and two characters are consumed for three nodes. */
  lemma ExhaustedRightChild()
    ensures Parse("^a", 0) == (Node(Leaf('a'), Leaf('\0')), 2)
    ensures Exhausts("^a", 0)
  {
  }

  /** A one-character serialization is a single childless root of size 1
      and height 0, with the empty code, and decode appends nothing to it
      whatever the bits are. */
  lemma SingleLeafArchive()
    ensures Parse("x", 0) == (Leaf('x'), 1)
    ensures Size(Leaf('x')) == 1 && Height(Leaf('x')) == 0
    ensures PrintCodes(Leaf('x'), []) == [('x', [])]
    ensures Decode(Leaf('x'), "0110") == Trace([], 0, false, Leaf('x'))
  {
  }

  /** "^a^bc": codes a = 0, b = 10, c = 11; "01011" decodes to "abc", and a
      lone "1" stops inside the tree without appending anything. */
  lemma ThreeLeafArchive()
    ensures Parse("^a^bc", 0) == (Node(Leaf('a'), Node(Leaf('b'), Leaf('c'))), 5)
    ensures PrintCodes(Node(Leaf('a'), Node(Leaf('b'), Leaf('c'))), []) ==
            [('a', "0"), ('b', "10"), ('c', "11")]
    ensures Decode(Node(Leaf('a'), Node(Leaf('b'), Leaf('c'))), "01011") ==
            Trace("abc", 5, false, Node(Leaf('a'), Node(Leaf('b'), Leaf('c'))))
    ensures Decode(Node(Leaf('a'), Node(Leaf('b'), Leaf('c'))), "1") ==
            Trace([], 1, false, Node(Leaf('b'), Leaf('c')))
  {
    assert [] + ['0'] == "0" && [] + ['1'] == "1";
    assert "1" + ['0'] == "10" && "1" + ['1'] == "11";
  }

  /** In the tree of "^a" the '1' branch does not recognise the empty right
      leaf (its payload is 0), stays on it, and the next bit steps into its
      missing child: decode throws after counting that move. */
  lemma EmptyLeafCrash()
    ensures Decode(Node(Leaf('a'), Leaf('\0')), "0") == Trace("a", 1, false, Node(Leaf('a'), Leaf('\0')))
    ensures Decode(Node(Leaf('a'), Leaf('\0')), "10") == Trace([], 2, true, Leaf('\0'))
  {
  }
}
