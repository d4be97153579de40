/** RotateLeft / RotateRight: local relinking of a node, its child and the
    child's inner subtree. A node of the tree is named by its address, the
    sequence of steps from the root; an address that runs into nil names the
    nil pointer. */
module Rotations {
  import opened RBTypes

  datatype Step = GoLeft | GoRight

  /** RotateLeft relinking at x: x.Right (y) takes x's place, x becomes y's
      left child and y's old left subtree becomes x's right subtree. A no-op
      when x or x.Right is nil. */
  function RotateLeftTree<V>(x: RB<V>): (r: RB<V>)
    ensures Inorder(r) == Inorder(x)
    ensures x.Nil? || x.right.Nil? ==> r == x
  {
    if x.Nil? || x.right.Nil? then x
    else
      var y := x.right;
      assert Inorder(x) == Inorder(x.left) + [Entry(x.key, x.payload)] +
        (Inorder(y.left) + [Entry(y.key, y.payload)] + Inorder(y.right));
      Node(y.color, y.key, y.payload, Node(x.color, x.key, x.payload, x.left, y.left), y.right)
  }

  /** RotateRight relinking at y, the mirror image of RotateLeftTree. */
  function RotateRightTree<V>(y: RB<V>): (r: RB<V>)
    ensures Inorder(r) == Inorder(y)
    ensures y.Nil? || y.left.Nil? ==> r == y
  {
    if y.Nil? || y.left.Nil? then y
    else
      var x := y.left;
      assert Inorder(y) == (Inorder(x.left) + [Entry(x.key, x.payload)] + Inorder(x.right)) +
        [Entry(y.key, y.payload)] + Inorder(y.right);
      Node(x.color, x.key, x.payload, x.left, Node(y.color, y.key, y.payload, x.right, y.right))
  }

  /** RotateRight undoes RotateLeft (when RotateLeft did something), and the converse. */
  lemma RotateInverse<V>(x: RB<V>)
    ensures x.Node? && x.right.Node? ==> RotateRightTree(RotateLeftTree(x)) == x
    ensures x.Node? && x.left.Node? ==> RotateLeftTree(RotateRightTree(x)) == x
  {
  }

  /** The subtree at an address (nil when the address runs into nil). */
  function SubtreeAt<V>(t: RB<V>, a: seq<Step>): RB<V>
    decreases |a|
  {
    if a == [] || t.Nil? then (if a == [] then t else Nil)
    else if a[0] == GoLeft then SubtreeAt(t.left, a[1..])
    else SubtreeAt(t.right, a[1..])
  }

  /** Hang u where the subtree at address a was (nothing changes if a runs into nil). */
  function ReplaceAt<V>(t: RB<V>, a: seq<Step>, u: RB<V>): RB<V>
    decreases |a|
  {
    if a == [] then u
    else if t.Nil? then t
    else if a[0] == GoLeft then Node(t.color, t.key, t.payload, ReplaceAt(t.left, a[1..], u), t.right)
    else Node(t.color, t.key, t.payload, t.left, ReplaceAt(t.right, a[1..], u))
  }

  function RotateLeftAt<V>(t: RB<V>, a: seq<Step>): RB<V>
  {
    ReplaceAt(t, a, RotateLeftTree(SubtreeAt(t, a)))
  }

  function RotateRightAt<V>(t: RB<V>, a: seq<Step>): RB<V>
  {
    ReplaceAt(t, a, RotateRightTree(SubtreeAt(t, a)))
  }

  /** Replacing a subtree by one with the same entries keeps the entries of the whole tree. */
  lemma {:induction false} ReplaceSameInorder<V>(t: RB<V>, a: seq<Step>, u: RB<V>)
    requires Inorder(u) == Inorder(SubtreeAt(t, a))
    ensures Inorder(ReplaceAt(t, a, u)) == Inorder(t)
    decreases |a|
  {
    if a != [] && t.Node? {
      if a[0] == GoLeft {
        ReplaceSameInorder(t.left, a[1..], u);
      } else {
        ReplaceSameInorder(t.right, a[1..], u);
      }
    }
  }

  /** After replacing, the address holds u, provided it named a node. */
  lemma {:induction false} SubtreeOfReplace<V>(t: RB<V>, a: seq<Step>, u: RB<V>)
    requires SubtreeAt(t, a).Node?
    ensures SubtreeAt(ReplaceAt(t, a, u), a) == u
    decreases |a|
  {
    if a != [] {
      if a[0] == GoLeft {
        SubtreeOfReplace(t.left, a[1..], u);
      } else {
        SubtreeOfReplace(t.right, a[1..], u);
      }
    }
  }

  /** Replacing twice at the same address: the second one wins. */
  lemma {:induction false} ReplaceTwice<V>(t: RB<V>, a: seq<Step>, u: RB<V>, w: RB<V>)
    requires SubtreeAt(t, a).Node?
    ensures ReplaceAt(ReplaceAt(t, a, u), a, w) == ReplaceAt(t, a, w)
    decreases |a|
  {
    if a != [] {
      if a[0] == GoLeft {
        ReplaceTwice(t.left, a[1..], u, w);
      } else {
        ReplaceTwice(t.right, a[1..], u, w);
      }
    }
  }

  /** Putting back what was there changes nothing. */
  lemma {:induction false} ReplaceSelf<V>(t: RB<V>, a: seq<Step>)
    ensures ReplaceAt(t, a, SubtreeAt(t, a)) == t
    decreases |a|
  {
    if a != [] && t.Node? {
      if a[0] == GoLeft {
        ReplaceSelf(t.left, a[1..]);
      } else {
        ReplaceSelf(t.right, a[1..]);
      }
    }
  }

  predicate IsPrefix(a: seq<Step>, b: seq<Step>)
  {
    |a| <= |b| && b[..|a|] == a
  }

  /** Only the addressed subtree changes: an address that is neither a prefix
      nor an extension of a names the same subtree afterwards, and a node
      above a keeps its colour, key and payload. */
  lemma {:induction false} ReplaceFrame<V>(t: RB<V>, a: seq<Step>, u: RB<V>, b: seq<Step>)
    ensures !IsPrefix(a, b) && !IsPrefix(b, a) ==> SubtreeAt(ReplaceAt(t, a, u), b) == SubtreeAt(t, b)
    ensures IsPrefix(b, a) && b != a && SubtreeAt(t, b).Node? ==>
      var n, n' := SubtreeAt(t, b), SubtreeAt(ReplaceAt(t, a, u), b);
      n'.Node? && n'.color == n.color && n'.key == n.key && n'.payload == n.payload
    decreases |a|
  {
    if a != [] && b != [] && t.Node? {
      assert IsPrefix(a, b) ==> IsPrefix(a[1..], b[1..]) && a[0] == b[0];
      assert IsPrefix(b, a) ==> IsPrefix(b[1..], a[1..]) && a[0] == b[0];
      if a[0] == b[0] {
        assert IsPrefix(a[1..], b[1..]) ==> IsPrefix(a, b) by {
          if IsPrefix(a[1..], b[1..]) { assert b[..|a|] == [b[0]] + b[1..][..|a| - 1]; }
        }
        assert IsPrefix(b[1..], a[1..]) ==> IsPrefix(b, a) by {
          if IsPrefix(b[1..], a[1..]) { assert a[..|b|] == [a[0]] + a[1..][..|b| - 1]; }
        }
        if a[0] == GoLeft {
          ReplaceFrame(t.left, a[1..], u, b[1..]);
        } else {
          ReplaceFrame(t.right, a[1..], u, b[1..]);
        }
      }
    }
  }

  /** Rotating at an address keeps the tree's entries, and hence its BST order. */
  lemma RotateAtInorder<V>(t: RB<V>, a: seq<Step>)
    ensures Inorder(RotateLeftAt(t, a)) == Inorder(t)
    ensures Inorder(RotateRightAt(t, a)) == Inorder(t)
  {
    ReplaceSameInorder(t, a, RotateLeftTree(SubtreeAt(t, a)));
    ReplaceSameInorder(t, a, RotateRightTree(SubtreeAt(t, a)));
  }

  /** RotateRight at the same address undoes a RotateLeft that took effect. */
  lemma RotateAtInverse<V>(t: RB<V>, a: seq<Step>)
    requires SubtreeAt(t, a).Node? && SubtreeAt(t, a).right.Node?
    ensures RotateRightAt(RotateLeftAt(t, a), a) == t
  {
    var x := SubtreeAt(t, a);
    var u := RotateLeftTree(x);
    SubtreeOfReplace(t, a, u);
    ReplaceTwice(t, a, u, RotateRightTree(u));
    RotateInverse(x);
    ReplaceSelf(t, a);
  }

  /** The root reference changes only when the rotated node is the root: below
      the root, the root node keeps its colour, key and payload; at the root,
      the promoted child becomes the root. */
  lemma RotateAtRoot<V>(t: RB<V>, a: seq<Step>)
    requires t.Node?
    ensures a != [] ==>
      (RotateLeftAt(t, a).Node? && RotateLeftAt(t, a).key == t.key &&
       RotateLeftAt(t, a).color == t.color && RotateLeftAt(t, a).payload == t.payload)
    ensures a != [] ==>
      (RotateRightAt(t, a).Node? && RotateRightAt(t, a).key == t.key &&
       RotateRightAt(t, a).color == t.color && RotateRightAt(t, a).payload == t.payload)
    ensures a == [] && t.right.Node? ==> RotateLeftAt(t, a).key == t.right.key
    ensures a == [] && t.left.Node? ==> RotateRightAt(t, a).key == t.left.key
  {
    ReplaceFrame(t, a, RotateLeftTree(SubtreeAt(t, a)), []);
    ReplaceFrame(t, a, RotateRightTree(SubtreeAt(t, a)), []);
  }
}
