/** Derivation of the code table (printCodes), with its printing turned into
    a returned list of (payload, code) pairs in the order they are printed. */
module Codes {
  import opened Trees

  type Entry = (char, seq<char>)

  /** Depth-first, left before right: a childless node reports its payload
      with the path accumulated so far, an internal node extends the path
      with '0' for its left and '1' for its right subtree. */
  function PrintCodes(root: Tree, code: seq<char>): seq<Entry> {
    match root
    case Leaf(c) => [(c, code)]
    case Node(l, r) => PrintCodes(l, code + ['0']) + PrintCodes(r, code + ['1'])
  }

  /** Every leaf is reported exactly once, in left-to-right order. */
  lemma {:induction false} CodesEnumerateLeaves(t: Tree, code: seq<char>)
    ensures var table := PrintCodes(t, code);
            |table| == |Leaves(t)| &&
            forall i :: 0 <= i < |table| ==> table[i].0 == Leaves(t)[i]
  {
    match t
    case Leaf(_) =>
    case Node(l, r) =>
      CodesEnumerateLeaves(l, code + ['0']);
      CodesEnumerateLeaves(r, code + ['1']);
  }

  /** Each reported code is the accumulated prefix followed by the path from
      the node to the reported leaf: a path that ends on that leaf, no longer
      than the height, and non-empty below an internal node. */
  lemma {:induction false} CodeIsPath(t: Tree, code: seq<char>, i: nat)
    requires i < |PrintCodes(t, code)|
    ensures var e := PrintCodes(t, code)[i];
            code <= e.1 &&
            Descend(t, e.1[|code|..]) == Some(Leaf(e.0)) &&
            |e.1| - |code| <= Height(t) &&
            (t.Node? ==> |e.1| > |code|)
  {
    match t
    case Leaf(_) =>
      assert PrintCodes(t, code)[0].1[|code|..] == [];
    case Node(l, r) =>
      var c0, c1 := code + ['0'], code + ['1'];
      var left, right := PrintCodes(l, c0), PrintCodes(r, c1);
      if i < |left| {
        var e := left[i];
        assert PrintCodes(t, code)[i] == e;
        CodeIsPath(l, c0, i);
        assert e.1[|code|..][1..] == e.1[|c0|..];
        assert e.1[|code|..][0] == '0';
        DescendDepth(l, e.1[|c0|..]);
      } else {
        var e := right[i - |left|];
        assert PrintCodes(t, code)[i] == e;
        CodeIsPath(r, c1, i - |left|);
        assert e.1[|code|..][1..] == e.1[|c1|..];
        assert e.1[|code|..][0] == '1';
        DescendDepth(r, e.1[|c1|..]);
      }
  }

  /** No reported code is a prefix of another one; in particular all codes
      are distinct. */
  lemma {:induction false} CodesPrefixFree(t: Tree, code: seq<char>, i: nat, j: nat)
    requires i < |PrintCodes(t, code)| && j < |PrintCodes(t, code)| && i != j
    ensures !(PrintCodes(t, code)[i].1 <= PrintCodes(t, code)[j].1)
  {
    match t
    case Node(l, r) =>
      var c0, c1 := code + ['0'], code + ['1'];
      var left, right := PrintCodes(l, c0), PrintCodes(r, c1);
      var table := left + right;
      assert PrintCodes(t, code) == table;
      if i < |left| && j < |left| {
        assert table[i] == left[i] && table[j] == left[j];
        CodesPrefixFree(l, c0, i, j);
      } else if i >= |left| && j >= |left| {
        assert table[i] == right[i - |left|] && table[j] == right[j - |left|];
        CodesPrefixFree(r, c1, i - |left|, j - |left|);
      } else if i < |left| {
        assert table[i] == left[i] && table[j] == right[j - |left|];
        CodeIsPath(l, c0, i);
        CodeIsPath(r, c1, j - |left|);
        assert table[i].1[|code|] == '0' && table[j].1[|code|] == '1';
      } else {
        assert table[i] == right[i - |left|] && table[j] == left[j];
        CodeIsPath(r, c1, i - |left|);
        CodeIsPath(l, c0, j);
        assert table[i].1[|code|] == '1' && table[j].1[|code|] == '0';
      }
  }

  /** A root without children is reported alone, with the empty code. */
  lemma SingleLeafCode(t: Tree)
    requires t.Leaf?
    ensures PrintCodes(t, []) == [(Payload(t), [])]
  {
  }

  /** The index of the first entry reporting payload c. */
  function Lookup(table: seq<Entry>, c: char): (k: Option<nat>)
    ensures k.Some? ==> k.value < |table| && table[k.value].0 == c &&
                        forall i :: 0 <= i < k.value ==> table[i].0 != c
    ensures k.None? ==> forall i :: 0 <= i < |table| ==> table[i].0 != c
  {
    if table == [] then None
    else if table[0].0 == c then Some(0)
    else match Lookup(table[1..], c)
      case None => None
      case Some(k) => Some(k + 1)
  }

  /** Encoding of a message with a code table: the concatenation of the
      first code listed for each of its characters, or None when some
      character has no code. */
  function Encode(table: seq<Entry>, msg: seq<char>): (r: Option<seq<char>>)
    ensures r.None? <==> exists i :: 0 <= i < |msg| && Lookup(table, msg[i]).None?
  {
    if msg == [] then Some([])
    else match Lookup(table, msg[0])
      case None => None
      case Some(k) =>
        match Encode(table, msg[1..])
        case None =>
          assert forall i :: 1 <= i < |msg| ==> msg[1..][i - 1] == msg[i];
          None
        case Some(rest) =>
          assert forall i :: 1 <= i < |msg| ==> msg[1..][i - 1] == msg[i];
          Some(table[k].1 + rest)
  }
}
