# MsgTree: archived-message reconstruction

A model of `MsgTree`, the class that unpacks a message archived with a
prefix code. An archive holds two things. The first is the code tree in
preorder: `^` marks an internal node and any other character is a leaf
carrying that character. The second is the message as a string of `0`/`1`
bits. `MsgTree` rebuilds the tree from the preorder string, lists each
leaf's code, and decodes the bits by walking the tree from the root, one
bit per step.

Files and modules:

- `trees.dfy` (`Trees`): the tree datatype `Leaf(c) | Node(l, r)` and the
  measures `Size`, `Height` and `Leaves`. It also defines `Preorder` (the
  serialization format) and `Descend` (following a `0`/`1` path). A node
  has either two children or none, so a tree with exactly one child cannot
  be written down. A node built after the cursor has passed the end of the
  string is `Leaf('\0')`. An internal node's payload is Java's default
  char 0.
- `builder.dfy` (`Builder`): `Parse(s, idx)` is the string constructor
  with its cursor passed in and returned. `Exhausts(s, idx)` says whether
  that parse needed a node past the end of `s`.
- `codes.dfy` (`Codes`): `PrintCodes` is `printCodes` with its console
  lines returned as a list of (payload, code) pairs, in printing order.
  `Lookup` and `Encode` encode a message with that list. They are used
  only to state the decode round trip; the source's own `encode` is
  commented out.
- `decoding.dfy` (`Decoding`): `Walk` is the loop of `decode` as a
  function. Its result `Trace` records the characters appended, the cursor
  moves, whether the walk threw `NullPointerException`, and where it
  stopped. `Decode` adds the "root has no children" guard.
- `state.dfy` (`State`): class `MsgTreeState` holds the static fields
  `staticCharIdx` (`charIdx`) and `decodingMsg`. `BuildTree` is the
  recursive string constructor acting on the shared cursor. `Decode` is
  the `for` loop. Each method is proved equal to its specification
  function above.
- `samples.dfy` (`Samples`): small concrete archives.

The model follows the code as written, including these behaviours a
reader may not expect:

- Building never fails. A missing node becomes `Leaf('\0')`; there is no
  malformed-tree error.
- Characters other than `0` and `1` in the bits are skipped silently.
- A partial path at the end of the bits is dropped silently.
- Nothing is decoded when the root has no children.
- If the `1` branch lands on a `'\0'` leaf, it does not recognise it as a
  leaf (line 243 tests the payload). The walk stays there, and the next
  bit steps into a null child and throws (`Samples.EmptyLeafCrash`). The
  round-trip lemmas therefore require a tree with no `'\0'` payload.
  Under that requirement the `0` branch's test (line 235) and the `1`
  branch's test agree (`Decoding.LeafTestsAgree`).
- `staticCharIdx` is never reset. Building uses the cursor where it
  stands, and decode keeps advancing it.

## Model

| member | source | states |
|---|---|---|
| `Trees.SingleNode` | src/MsgTree.java:115-119 | the char constructor gives a childless node with that payload: size 1, height 0, one leaf |
| `Trees.HeightBelowSize` | src/MsgTree.java:153-167 | for any non-null tree, 0 <= height < size (null counts as height -1 and size 0) |
| `Trees.SizeOfFullTree` | src/MsgTree.java:98-108 | every node has two children or none, so size = 2 * leaves - 1 |
| `Trees.PreorderLength` | src/MsgTree.java:98-108 | the serialization has exactly one character per node |
| `Trees.DescendDepth` | src/MsgTree.java:153-158 | a path that ends on a leaf is no longer than the height |
| `Builder.Parse` | src/MsgTree.java:98-108 | the cursor never moves back and stays within the string. It advances whenever it starts inside the string. At or past the end, nothing is consumed and the node is `Leaf('\0')`. The node is internal exactly when the character at the cursor is `^`; otherwise it is a leaf with that character |
| `Builder.ConsumedIsSize` | src/MsgTree.java:98-108 | a parse consumes at most `size` characters, and exactly `size` iff it never runs past the end |
| `Builder.ConsumedIsPreorder` | src/MsgTree.java:98-108 | a parse that never runs past the end consumes exactly the parsed tree's preorder serialization |
| `Builder.ParseNoMarker` | src/MsgTree.java:101-106 | no leaf of a parsed tree has the payload `^`: that character always makes an internal node |
| `Builder.ParsePreorder` | src/MsgTree.java:98-108 | parsing the serialization of a tree with no `^` payload rebuilds that tree, stops right after it, and never runs out |
| `Builder.ReparseDump` | src/MsgTree.java:98-108 | for every input string, dumping the parsed tree in preorder and parsing the dump gives the same tree, consuming one character per node |
| `Codes.CodesEnumerateLeaves` | src/MsgTree.java:127-134 | printCodes reports every leaf exactly once, left to right |
| `Codes.CodeIsPath` | src/MsgTree.java:127-134 | each reported code is the accumulated prefix plus the `0`/`1` path to that leaf. The path's length is the leaf's depth, is at most the height, and is non-empty below an internal node |
| `Codes.CodesPrefixFree` | src/MsgTree.java:127-134 | no reported code is a prefix of another reported code |
| `Codes.SingleLeafCode` | src/MsgTree.java:127-129 | a childless root is reported alone, with the empty code |
| `Decoding.WalkBounds` | src/MsgTree.java:231-248 | a walk appends no more characters than it makes moves, and makes no more moves than there are `0`/`1` bits |
| `Decoding.Decode` | src/MsgTree.java:222-251 | with a childless root nothing is appended, moved or thrown. In every case, appended characters <= moves <= `0`/`1` bits |
| `Decoding.WalkSkipsNonBits` | src/MsgTree.java:232-247 | deleting every character other than `0`/`1` leaves the walk unchanged |
| `Decoding.WalkMovesCountBits` | src/MsgTree.java:231-247 | a walk that does not throw advances the cursor once per `0`/`1` bit |
| `Decoding.LeafTestsAgree` | src/MsgTree.java:235-243 | with no `'\0'` payload, "a child is null" (the `0` branch's test) and "payload is not 0" (the `1` branch's test) agree at every node on a path |
| `Decoding.WalkCode` | src/MsgTree.java:229-248 | walking a leaf's printed code from an internal node appends exactly that leaf's payload, after one move per bit, and continues from the root |
| `Decoding.WalkPartialCode` | src/MsgTree.java:231-248 | stopping part-way along a code appends nothing, does not throw, and moves once per bit |
| `Decoding.DecodeEncoded` | src/MsgTree.java:229-248 | the encoding of a message followed by any bits decodes to the message, then to whatever those bits decode to |
| `Decoding.DecodeRoundTrip` | src/MsgTree.java:222-251 | decoding the concatenated printCodes codes of a message gives back exactly that message. It does not throw, moves once per bit and ends at the root |
| `Decoding.DecodeTrailingPartial` | src/MsgTree.java:229-248 | an encoding followed by a proper prefix of a code still decodes to just the message |
| `State.MsgTreeState.constructor` | src/MsgTree.java:42-48 | the static state starts with an empty `decodingMsg` and the cursor at 0 |
| `State.MsgTreeState.BuildTree` | src/MsgTree.java:98-108 | the string constructor returns `Parse` from the current cursor and leaves the cursor where `Parse` stops. `decodingMsg` is unchanged |
| `State.MsgTreeState.Decode` | src/MsgTree.java:222-251 | `decodingMsg` becomes its old contents plus what the walk appends, and the cursor grows by the walk's moves. A throw is reported. The tree is a value and cannot change |
| `Samples.ExhaustedRightChild` | src/MsgTree.java:98-108 | `"^a"` gives a right child `Leaf('\0')`: two characters are consumed for three nodes |
| `Samples.SingleLeafArchive` | src/MsgTree.java:229-230 | `"x"` gives one node of size 1 and height 0 with the empty code; decode appends nothing to it |
| `Samples.ThreeLeafArchive` | src/MsgTree.java:222-251 | `"^a^bc"` has codes 0, 10, 11; `"01011"` decodes to `"abc"`; a lone `"1"` stops at the inner node and appends nothing |
| `Samples.EmptyLeafCrash` | src/MsgTree.java:240-247 | in the tree of `"^a"`, `"0"` decodes to `"a"`, while `"10"` stays on the empty leaf and throws on the next bit |

## Left out

- `main` (src/MsgTree.java:50-91): reading the file name and the file, counting lines, and joining the two tree lines. This is I/O.
- The statistics in `main` (src/MsgTree.java:83-89): floating-point arithmetic and formatted printing.
- Console output: `printCodes` returns its lines as a list of pairs. The `println` of `decodingMsg` at the end of `decode` is not modelled; the buffer it prints is the modelled state.
- `traversePreorder`, `preorderString` and `makePreorderString` (src/MsgTree.java:140-189): they print `Object.toString()`, an identity hash. `makePreorderString` also has no null base case. `Trees.Preorder` is the format the constructor reads, not a model of these.
- The commented-out `encode` (src/MsgTree.java:191-215): dead code. `Codes.Encode` is a specification of encoding, not a model of it.
- Object identity: nodes are immutable values, not heap objects. Building and decoding never mutate a finished node, so no behaviour is lost.
- A `null` tree passed to `decode` or `printCodes`: the string constructor never produces one.
- 32-bit overflow of `staticCharIdx` and the 16-bit width of Java `char`: the cursor is an unbounded `nat`, and characters are Dafny `char`s.
