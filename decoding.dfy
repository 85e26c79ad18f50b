/** The bit-by-bit walk of decode, as a function of the tree and the bit
    string, and what it does on the concatenated codes of a message. */
module Decoding {
  import opened Trees
  import opened Codes

  /** What a walk does: the characters it appends to decodingMsg, how far it
      advances staticCharIdx, whether it ends in a NullPointerException, and
      the node it stands on at the end (on a crash, the childless node whose
      missing child it stepped into). */
  datatype Trace = Trace(out: seq<char>, moves: nat, crashed: bool, at: Tree)

  /** A trace preceded by out and k cursor moves. */
  function Prepend(out: seq<char>, k: nat, w: Trace): Trace {
    Trace(out + w.out, k + w.moves, w.crashed, w.at)
  }

  predicate IsBit(ch: char) {
    ch == '0' || ch == '1'
  }

  /** The '0' and '1' characters of bits, in order. */
  function Bits(bits: seq<char>): seq<char> {
    if bits == [] then [] else (if IsBit(bits[0]) then [bits[0]] else []) + Bits(bits[1..])
  }

  /** Number of '0' and '1' characters in bits. */
  function CountBits(bits: seq<char>): nat {
    |Bits(bits)|
  }

  /** The loop of decode from node cur onwards. A '0' moves to the left child
      and emits it (and goes back to root) when that child lacks a child; a '1'
      moves to the right child and emits it when its payload is not 0; every
      move advances the cursor. A bit read while standing on a childless node
      steps into null, advances the cursor and then crashes on the leaf test.
      Any other character is skipped. */
  function Walk(root: Tree, cur: Tree, bits: seq<char>): Trace
    decreases |bits|
  {
    if bits == [] then Trace([], 0, false, cur)
    else if IsBit(bits[0]) then
      match cur
      case Leaf(_) => Trace([], 1, true, cur)
      case Node(l, r) =>
        var next := if bits[0] == '0' then l else r;
        var emits := if bits[0] == '0' then next.Leaf? else Payload(next) != '\0';
        if emits then Prepend([Payload(next)], 1, Walk(root, root, bits[1..]))
        else Prepend([], 1, Walk(root, next, bits[1..]))
    else Walk(root, cur, bits[1..])
  }

  /** decode(tree, msg): a root without children decodes nothing at all,
      whatever msg holds; otherwise the walk starts at the root. */
  function Decode(root: Tree, msg: seq<char>): (w: Trace)
    ensures root.Leaf? ==> w.out == [] && w.moves == 0 && !w.crashed
    ensures |w.out| <= w.moves <= CountBits(msg)
  {
    if root.Leaf? then Trace([], 0, false, root)
    else WalkBounds(root, root, msg); Walk(root, root, msg)
  }

  /** A walk appends at most one character per move and moves at most once
      per '0' or '1'. */
  lemma {:induction false} WalkBounds(root: Tree, cur: Tree, bits: seq<char>)
    ensures var w := Walk(root, cur, bits); |w.out| <= w.moves <= CountBits(bits)
    decreases |bits|
  {
    if bits != [] {
      match cur
      case Leaf(_) =>
        WalkBounds(root, cur, bits[1..]);
      case Node(l, r) =>
        WalkBounds(root, root, bits[1..]);
        WalkBounds(root, l, bits[1..]);
        WalkBounds(root, r, bits[1..]);
        WalkBounds(root, cur, bits[1..]);
    }
  }

  /** One move from an internal node when no leaf carries 0: a bit enters
      the child it names and emits it exactly when it is a leaf. */
  lemma WalkStep(root: Tree, t: Tree, b: char, rest: seq<char>)
    requires t.Node? && IsBit(b) && NoNulLeaves(t)
    ensures var child := if b == '0' then t.l else t.r;
            Walk(root, t, [b] + rest) ==
              if child.Leaf? then Prepend([child.c], 1, Walk(root, root, rest))
              else Prepend([], 1, Walk(root, child, rest))
  {
    assert ([b] + rest)[0] == b && ([b] + rest)[1..] == rest;
    assert [b][1..] == [];
    LeafTestsAgree(t, [b]);
  }

  lemma PrependPrepend(a: seq<char>, j: nat, b: seq<char>, k: nat, w: Trace)
    ensures Prepend(a, j, Prepend(b, k, w)) == Prepend(a + b, j + k, w)
  {
    assert a + (b + w.out) == (a + b) + w.out;
  }

  /** Characters other than '0' and '1' neither move nor emit. */
  lemma {:induction false} WalkSkipsNonBits(root: Tree, cur: Tree, bits: seq<char>)
    ensures Walk(root, cur, Bits(bits)) == Walk(root, cur, bits)
    decreases |bits|
  {
    if bits != [] {
      var b := Bits(bits);
      if IsBit(bits[0]) {
        assert b[0] == bits[0] && b[1..] == Bits(bits[1..]);
        match cur
        case Leaf(_) =>
        case Node(l, r) =>
          WalkSkipsNonBits(root, root, bits[1..]);
          WalkSkipsNonBits(root, if bits[0] == '0' then l else r, bits[1..]);
      } else {
        assert b == Bits(bits[1..]);
        WalkSkipsNonBits(root, cur, bits[1..]);
      }
    }
  }

  /** A walk that does not crash moves once per '0' or '1'. */
  lemma {:induction false} WalkMovesCountBits(root: Tree, cur: Tree, bits: seq<char>)
    ensures !Walk(root, cur, bits).crashed ==> Walk(root, cur, bits).moves == CountBits(bits)
    decreases |bits|
  {
    if bits != [] {
      match cur
      case Leaf(_) =>
        WalkMovesCountBits(root, cur, bits[1..]);
      case Node(l, r) =>
        WalkMovesCountBits(root, root, bits[1..]);
        WalkMovesCountBits(root, l, bits[1..]);
        WalkMovesCountBits(root, r, bits[1..]);
        WalkMovesCountBits(root, cur, bits[1..]);
    }
  }

  /** Without 0 payloads the two branches' leaf tests agree: at every node
      reached by a path, "a child is missing" holds exactly when "the payload
      is not 0" does. WalkStep relies on this for one move. */
  lemma {:induction false} LeafTestsAgree(t: Tree, p: seq<char>)
    requires NoNulLeaves(t) && Descend(t, p).Some?
    ensures Descend(t, p).value.Leaf? <==> Payload(Descend(t, p).value) != '\0'
    decreases |p|
  {
    if p != [] {
      match t
      case Node(l, r) =>
        if p[0] == '0' { LeafTestsAgree(l, p[1..]); } else { LeafTestsAgree(r, p[1..]); }
    }
  }

  /** Walking from an internal node t along the path of one of its leaves
      emits that leaf's payload, once, after exactly one move per bit, and
      continues from the root. */
  lemma {:induction false} WalkCode(root: Tree, t: Tree, code: seq<char>, i: nat, rest: seq<char>)
    requires t.Node? && NoNulLeaves(t)
    requires i < |PrintCodes(t, code)|
    ensures var e := PrintCodes(t, code)[i];
            code <= e.1 &&
            Walk(root, t, e.1[|code|..] + rest) == Prepend([e.0], |e.1| - |code|, Walk(root, root, rest))
  {
    CodeIsPath(t, code, i);
    var e := PrintCodes(t, code)[i];
    var left := PrintCodes(t.l, code + ['0']);
    var b := if i < |left| then '0' else '1';
    var child := if i < |left| then t.l else t.r;
    var j := if i < |left| then i else i - |left|;
    var cb := code + [b];
    assert PrintCodes(child, cb)[j] == e;
    CodeIsPath(child, cb, j);
    var q := e.1[|cb|..];
    assert e.1[|code|..] + rest == [b] + (q + rest);
    WalkStep(root, t, b, q + rest);
    if child.Node? {
      WalkCode(root, child, cb, j, rest);
      PrependPrepend([], 1, [e.0], |e.1| - |cb|, Walk(root, root, rest));
    } else {
      assert q == [];
    }
  }

  /** Stopping part-way along a leaf's path emits nothing and does not
      crash: a trailing partial path appends nothing. */
  lemma {:induction false} WalkPartialCode(root: Tree, t: Tree, code: seq<char>, i: nat, k: nat)
    requires t.Node? && NoNulLeaves(t)
    requires i < |PrintCodes(t, code)|
    requires |code| + k < |PrintCodes(t, code)[i].1|
    ensures var e := PrintCodes(t, code)[i];
            code <= e.1 &&
            var w := Walk(root, t, e.1[|code|..|code| + k]);
            w.out == [] && w.moves == k && !w.crashed
  {
    CodeIsPath(t, code, i);
    var e := PrintCodes(t, code)[i];
    if k > 0 {
      var left := PrintCodes(t.l, code + ['0']);
      var b := if i < |left| then '0' else '1';
      var child := if i < |left| then t.l else t.r;
      var j := if i < |left| then i else i - |left|;
      var cb := code + [b];
      assert PrintCodes(child, cb)[j] == e;
      CodeIsPath(child, cb, j);
      var q := e.1[|cb|..|cb| + (k - 1)];
      assert e.1[|code|..|code| + k] == [b] + q;
      match child
      case Leaf(_) =>
        assert false;
      case Node(_, _) =>
        WalkStep(root, t, b, q);
        WalkPartialCode(root, child, cb, j, k - 1);
    }
  }

  /** Decoding a message's encoding, followed by anything, emits the message
      and then whatever the rest emits, one move per bit of the encoding. */
  lemma {:induction false} DecodeEncoded(root: Tree, msg: seq<char>, rest: seq<char>)
    requires root.Node? && NoNulLeaves(root)
    requires Encode(PrintCodes(root, []), msg).Some?
    ensures var bits := Encode(PrintCodes(root, []), msg).value;
            Walk(root, root, bits + rest) == Prepend(msg, |bits|, Walk(root, root, rest))
    decreases |msg|
  {
    var table := PrintCodes(root, []);
    var bits := Encode(table, msg).value;
    if msg == [] {
      assert bits + rest == rest;
      assert [] + Walk(root, root, rest).out == Walk(root, root, rest).out;
    } else {
      var k := Lookup(table, msg[0]).value;
      var tail := Encode(table, msg[1..]).value;
      var code := table[k].1;
      assert bits + rest == code + (tail + rest);
      WalkCode(root, root, [], k, tail + rest);
      assert code[0..] == code;
      DecodeEncoded(root, msg[1..], rest);
      PrependPrepend([msg[0]], |code|, msg[1..], |tail|, Walk(root, root, rest));
      assert [msg[0]] + msg[1..] == msg;
    }
  }

  /** Decode round trip: decoding the concatenated codes of a message emits
      exactly that message, without crashing, moving once per bit and ending
      back at the root. */
  lemma DecodeRoundTrip(root: Tree, msg: seq<char>)
    requires root.Node? && NoNulLeaves(root)
    requires Encode(PrintCodes(root, []), msg).Some?
    ensures var bits := Encode(PrintCodes(root, []), msg).value;
            Decode(root, bits) == Trace(msg, |bits|, false, root)
  {
    var bits := Encode(PrintCodes(root, []), msg).value;
    DecodeEncoded(root, msg, []);
    assert bits + [] == bits;
  }

  /** A message's encoding followed by a proper prefix of some code decodes
      to just the message: the trailing partial path appends nothing. */
  lemma DecodeTrailingPartial(root: Tree, msg: seq<char>, i: nat, k: nat)
    requires root.Node? && NoNulLeaves(root)
    requires Encode(PrintCodes(root, []), msg).Some?
    requires i < |PrintCodes(root, [])| && k < |PrintCodes(root, [])[i].1|
    ensures var bits := Encode(PrintCodes(root, []), msg).value;
            var w := Decode(root, bits + PrintCodes(root, [])[i].1[..k]);
            w.out == msg && !w.crashed && w.moves == |bits| + k
  {
    var code := PrintCodes(root, [])[i].1;
    DecodeEncoded(root, msg, code[..k]);
    WalkPartialCode(root, root, [], i, k);
    assert code[0..k] == code[..k];
    assert msg + [] == msg;
  }
}
