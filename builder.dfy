/** Reconstruction of a tree from its preorder serialization, the work of
    the MsgTree(String) constructor with its shared cursor made explicit. */
module Builder {
  import opened Trees

  /** Parses one node at cursor idx of s and returns it with the cursor
      after it. At the end of s nothing is consumed and the node is an
      empty Leaf('\0'); otherwise the character at the cursor is consumed,
      and '^' makes an internal node whose left and then right subtree are
      parsed from the following characters, any other character a leaf. */
  function Parse(s: seq<char>, idx: nat): (r: (Tree, nat))
    ensures r.1 >= idx
    ensures idx < |s| ==> r.1 > idx
    ensures idx <= |s| ==> r.1 <= |s|
    ensures idx >= |s| ==> r == (Leaf('\0'), idx)
    ensures r.0.Node? <==> idx < |s| && s[idx] == '^'
    ensures idx < |s| && s[idx] != '^' ==> r.0 == Leaf(s[idx])
    decreases if idx <= |s| then |s| - idx else 0
  {
    if idx < |s| then
      var c := s[idx];
      if c == '^' then
        var (left, m) := Parse(s, idx + 1);
        var (right, j) := Parse(s, m);
        (Node(left, right), j)
      else
        (Leaf(c), idx + 1)
    else
      (Leaf('\0'), idx)
  }

  /** Whether parsing at idx needs a node after the end of s. */
  predicate Exhausts(s: seq<char>, idx: nat)
    decreases if idx <= |s| then |s| - idx else 0
  {
    idx >= |s| ||
    (s[idx] == '^' && (Exhausts(s, idx + 1) || Exhausts(s, Parse(s, idx + 1).1)))
  }

  /** s holds p starting at position idx. */
  predicate SpellsAt(s: seq<char>, idx: nat, p: seq<char>) {
    idx + |p| <= |s| && forall k :: 0 <= k < |p| ==> s[idx + k] == p[k]
  }

  /** s holds a concatenation exactly when it holds its parts one after the
      other. */
  lemma SpellsConcat(s: seq<char>, idx: nat, a: seq<char>, b: seq<char>)
    ensures SpellsAt(s, idx, a + b) <==> SpellsAt(s, idx, a) && SpellsAt(s, idx + |a|, b)
  {
    if SpellsAt(s, idx, a) && SpellsAt(s, idx + |a|, b) {
      forall k | 0 <= k < |a + b| ensures s[idx + k] == (a + b)[k] {
        if k >= |a| { assert s[idx + |a| + (k - |a|)] == b[k - |a|]; }
      }
    }
    if SpellsAt(s, idx, a + b) {
      forall k | 0 <= k < |a| ensures s[idx + k] == a[k] {
        assert (a + b)[k] == a[k];
      }
      forall k | 0 <= k < |b| ensures s[idx + |a| + k] == b[k] {
        assert s[idx + (|a| + k)] == (a + b)[|a| + k];
      }
    }
  }

  /** A parse consumes at most one character per node, and exactly one per
      node exactly when it never runs past the end of the string. */
  lemma {:induction false} ConsumedIsSize(s: seq<char>, idx: nat)
    ensures var (t, j) := Parse(s, idx);
            j - idx <= Size(t) && (j - idx == Size(t) <==> !Exhausts(s, idx))
    decreases if idx <= |s| then |s| - idx else 0
  {
    if idx < |s| && s[idx] == '^' {
      var (left, m) := Parse(s, idx + 1);
      var (right, j) := Parse(s, m);
      assert Parse(s, idx) == (Node(left, right), j);
      assert Exhausts(s, idx) == (Exhausts(s, idx + 1) || Exhausts(s, m));
      ConsumedIsSize(s, idx + 1);
      ConsumedIsSize(s, m);
    }
  }

  /** A parse that never runs past the end consumes exactly the tree's
      preorder serialization. */
  lemma {:induction false} ConsumedIsPreorder(s: seq<char>, idx: nat)
    requires !Exhausts(s, idx)
    ensures var (t, j) := Parse(s, idx);
            j == idx + |Preorder(t)| && SpellsAt(s, idx, Preorder(t))
    decreases if idx <= |s| then |s| - idx else 0
  {
    if s[idx] == '^' {
      var (left, m) := Parse(s, idx + 1);
      var (right, j) := Parse(s, m);
      assert Parse(s, idx) == (Node(left, right), j);
      ConsumedIsPreorder(s, idx + 1);
      ConsumedIsPreorder(s, m);
      SpellsConcat(s, idx, ['^'], Preorder(left));
      SpellsConcat(s, idx, ['^'] + Preorder(left), Preorder(right));
    }
  }

  /** Parsing the serialization of a tree whose payloads avoid the marker
      rebuilds that tree and stops right after it. */
  lemma {:induction false} ParsePreorder(t: Tree, s: seq<char>, idx: nat)
    requires NoMarkerLeaves(t) && SpellsAt(s, idx, Preorder(t))
    ensures Parse(s, idx) == (t, idx + |Preorder(t)|)
    ensures !Exhausts(s, idx)
  {
    assert s[idx + 0] == Preorder(t)[0];
    match t
    case Leaf(_) =>
    case Node(l, r) =>
      SpellsConcat(s, idx, ['^'], Preorder(l));
      SpellsConcat(s, idx, ['^'] + Preorder(l), Preorder(r));
      ParsePreorder(l, s, idx + 1);
      ParsePreorder(r, s, idx + 1 + |Preorder(l)|);
  }

  /** A parsed tree never carries the marker as a payload: '^' always makes
      an internal node, and an empty node carries '\0'. */
  lemma {:induction false} ParseNoMarker(s: seq<char>, idx: nat)
    ensures NoMarkerLeaves(Parse(s, idx).0)
    decreases if idx <= |s| then |s| - idx else 0
  {
    if idx < |s| && s[idx] == '^' {
      var (left, m) := Parse(s, idx + 1);
      assert Parse(s, idx).0 == Node(left, Parse(s, m).0);
      ParseNoMarker(s, idx + 1);
      ParseNoMarker(s, m);
    }
  }

  /** Dumping any parsed tree in preorder and parsing the dump rebuilds the
      same tree, one character per node. */
  lemma ReparseDump(s: seq<char>)
    ensures var t := Parse(s, 0).0; Parse(Preorder(t), 0) == (t, Size(t))
  {
    var t := Parse(s, 0).0;
    ParseNoMarker(s, 0);
    ParsePreorder(t, Preorder(t), 0);
    PreorderLength(t);
  }
}
