/** The prefix-code tree of a MsgTree archive and its structural measures. */
module Trees {

  datatype Option<T> = None | Some(value: T)

  /** A MsgTree node. A node has either two children or none: the string
      constructor gives children only to a '^' node, and gives them both.
      A node built when the cursor had already run off the string is a
      childless node with the default payload '\0', i.e. Leaf('\0'). */
  datatype Tree = Leaf(c: char) | Node(l: Tree, r: Tree)

  /** The payloadChar field. An internal node never has it set, so it keeps
      Java's default char value 0. */
  function Payload(t: Tree): (c: char)
    ensures t.Node? ==> c == '\0'
  {
    match t
    case Leaf(c) => c
    case Node(_, _) => '\0'
  }

  /** size(null) and height(null) in the source. */
  const NullSize: int := 0
  const NullHeight: int := -1

  function Max(a: int, b: int): int {
    if a < b then b else a
  }

  /** Number of nodes; a leaf's two null children contribute NullSize each. */
  function Size(t: Tree): nat {
    match t
    case Leaf(_) => 1 + NullSize + NullSize
    case Node(l, r) => 1 + Size(l) + Size(r)
  }

  /** Edge count of the longest root-to-leaf path; a leaf's two null
      children have height NullHeight each. */
  function Height(t: Tree): int {
    match t
    case Leaf(_) => 1 + Max(NullHeight, NullHeight)
    case Node(l, r) => 1 + Max(Height(l), Height(r))
  }

  /** Leaf payloads, left to right. */
  function Leaves(t: Tree): seq<char> {
    match t
    case Leaf(c) => [c]
    case Node(l, r) => Leaves(l) + Leaves(r)
  }

  /** The preorder serialization the string constructor reads: '^' for an
      internal node, the payload itself for a leaf. */
  function Preorder(t: Tree): seq<char> {
    match t
    case Leaf(c) => [c]
    case Node(l, r) => ['^'] + Preorder(l) + Preorder(r)
  }

  /** The closed-world assumption of the format: no payload is the marker. */
  predicate NoMarkerLeaves(t: Tree) {
    match t
    case Leaf(c) => c != '^'
    case Node(l, r) => NoMarkerLeaves(l) && NoMarkerLeaves(r)
  }

  /** No leaf carries the payload 0, the value an internal node also has. */
  predicate NoNulLeaves(t: Tree) {
    match t
    case Leaf(c) => c != '\0'
    case Node(l, r) => NoNulLeaves(l) && NoNulLeaves(r)
  }

  /** The subtree reached from t by following the '0'/'1' path p; None when
      the path leaves the tree or contains another character. */
  function Descend(t: Tree, p: seq<char>): Option<Tree> {
    if p == [] then Some(t)
    else match t
      case Leaf(_) => None
      case Node(l, r) =>
        if p[0] == '0' then Descend(l, p[1..])
        else if p[0] == '1' then Descend(r, p[1..])
        else None
  }

  /** The MsgTree(char) constructor: a node with the given payload and no
      children. It is a one-node tree of height 0. */
  function SingleNode(c: char): (t: Tree)
    ensures Payload(t) == c && Size(t) == 1 && Height(t) == 0
    ensures t.Leaf? && Leaves(t) == [c]
  {
    Leaf(c)
  }

  /** A non-null tree has height at least 0 and below its size. */
  lemma {:induction false} HeightBelowSize(t: Tree)
    ensures 0 <= Height(t) < Size(t)
  {
    match t
    case Leaf(_) =>
    case Node(l, r) =>
      HeightBelowSize(l);
      HeightBelowSize(r);
  }

  /** Every node has zero or two children, so a tree with n leaves has
      exactly n - 1 internal nodes. */
  lemma {:induction false} SizeOfFullTree(t: Tree)
    ensures Size(t) == 2 * |Leaves(t)| - 1
  {
    match t
    case Leaf(_) =>
    case Node(l, r) =>
      SizeOfFullTree(l);
      SizeOfFullTree(r);
  }

  /** The serialization has one character per node. */
  lemma {:induction false} PreorderLength(t: Tree)
    ensures |Preorder(t)| == Size(t)
  {
    match t
    case Leaf(_) =>
    case Node(l, r) =>
      PreorderLength(l);
      PreorderLength(r);
  }

  /** A path that ends on a leaf is no longer than the height. */
  lemma {:induction false} DescendDepth(t: Tree, p: seq<char>)
    requires Descend(t, p).Some? && Descend(t, p).value.Leaf?
    ensures |p| <= Height(t)
  {
    if p != [] {
      match t
      case Node(l, r) =>
        if p[0] == '0' { DescendDepth(l, p[1..]); } else { DescendDepth(r, p[1..]); }
    }
  }
}
