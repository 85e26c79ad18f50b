/** The mutable part of MsgTree: its two static fields, the shared parse
    cursor staticCharIdx and the output buffer decodingMsg, with the two
    operations that change them. */
module State {
  import opened Trees
  import Builder
  import Decoding

  class MsgTreeState {
    /** staticCharIdx: the cursor of the string constructor, which decode
        also advances once per move. */
    var charIdx: nat
    /** decodingMsg: the decoded characters so far. */
    var decodingMsg: seq<char>

    /** The static initializers. */
    constructor ()
      ensures charIdx == 0 && decodingMsg == []
    {
      charIdx := 0;
      decodingMsg := [];
    }

    /** new MsgTree(encodingString): builds one node at the shared cursor
        and, for '^', its left and then its right subtree, advancing the
        cursor by one per character read. The cursor is not reset first. */
    method BuildTree(s: seq<char>) returns (t: Tree)
      modifies this
      ensures (t, charIdx) == Builder.Parse(s, old(charIdx))
      ensures decodingMsg == old(decodingMsg)
      decreases if charIdx <= |s| then |s| - charIdx else 0
    {
      if charIdx < |s| {
        var c := s[charIdx];
        charIdx := charIdx + 1;
        if c == '^' {
          var left := BuildTree(s);
          var right := BuildTree(s);
          t := Node(left, right);
        } else {
          t := Leaf(c);
        }
      } else {
        t := Leaf('\0');
      }
    }

    /** decode(tree, msg): walks tree bit by bit from its root, appending a
        payload to decodingMsg and going back to the root at each leaf, and
        advancing charIdx once per move. Nothing happens when the root has no
        children. crashed reports the NullPointerException thrown when a bit
        arrives while standing on a childless node; what was appended and
        counted up to then stays. */
    method Decode(tree: Tree, msg: seq<char>) returns (crashed: bool)
      modifies this
      ensures var w := Decoding.Decode(tree, msg);
              decodingMsg == old(decodingMsg) + w.out &&
              charIdx == old(charIdx) + w.moves &&
              crashed == w.crashed
    {
      crashed := false;
      var current := tree;
      if tree.Node? {
        ghost var total := Decoding.Walk(tree, tree, msg);
        var i := 0;
        while i < |msg|
          invariant 0 <= i <= |msg|
          invariant var w := Decoding.Walk(tree, current, msg[i..]);
                    old(decodingMsg) + total.out == decodingMsg + w.out &&
                    old(charIdx) + total.moves == charIdx + w.moves &&
                    total.crashed == w.crashed
        {
          ghost var rest := msg[i + 1..];
          assert msg[i..] == [msg[i]] + rest;
          if msg[i] == '0' {
            if current.Leaf? {
              // current.left is null: the move succeeds, the leaf test throws
              assert Decoding.Walk(tree, current, msg[i..]) == Decoding.Trace([], 1, true, current);
              charIdx := charIdx + 1;
              return true;
            }
            current := current.l;
            charIdx := charIdx + 1;
            if current.Leaf? {
              ghost var w := Decoding.Walk(tree, tree, rest);
              assert decodingMsg + ([Payload(current)] + w.out) == (decodingMsg + [Payload(current)]) + w.out;
              decodingMsg := decodingMsg + [Payload(current)];
              current := tree;
            }
          } else if msg[i] == '1' {
            if current.Leaf? {
              assert Decoding.Walk(tree, current, msg[i..]) == Decoding.Trace([], 1, true, current);
              charIdx := charIdx + 1;
              return true;
            }
            current := current.r;
            charIdx := charIdx + 1;
            if Payload(current) != '\0' {
              ghost var w := Decoding.Walk(tree, tree, rest);
              assert decodingMsg + ([Payload(current)] + w.out) == (decodingMsg + [Payload(current)]) + w.out;
              decodingMsg := decodingMsg + [Payload(current)];
              current := tree;
            }
          }
          i := i + 1;
        }
      }
    }
  }
}
