/** Parent pointers as a zipper: a focused subtree together with the path of
    frames back up to the root. path[0] is the focused node's parent, and a
    frame records which child slot the focus occupies, the parent's colour,
    key and payload, and the sibling subtree. An empty path means the focus
    is the root. */
module Zipper {
  import opened RBTypes

  datatype Frame<V> =
    | AsLeft(color: Color, key: int, payload: V, sibling: RB<V>)   // focus is the Left child
    | AsRight(color: Color, key: int, payload: V, sibling: RB<V>)  // focus is the Right child

  /** A focused subtree and its path to the root: the value-level stand-in for a node pointer. */
  datatype Zip<V> = Zip(focus: RB<V>, path: seq<Frame<V>>)

  /** Put t back into the child slot the frame describes. */
  function Fill<V>(f: Frame<V>, t: RB<V>): RB<V>
  {
    match f
    case AsLeft(c, k, v, s) => Node(c, k, v, t, s)
    case AsRight(c, k, v, s) => Node(c, k, v, s, t)
  }

  /** The same frame with its node recoloured. */
  function Paint<V>(f: Frame<V>, c: Color): Frame<V>
  {
    match f
    case AsLeft(_, k, v, s) => AsLeft(c, k, v, s)
    case AsRight(_, k, v, s) => AsRight(c, k, v, s)
  }

  function Last<V>(p: seq<Frame<V>>): Frame<V>
    requires p != []
  {
    p[|p| - 1]
  }

  /** Rebuild the whole tree from a focus and its path. */
  function Plug<V>(t: RB<V>, p: seq<Frame<V>>): RB<V>
    decreases |p|
  {
    if p == [] then t else Plug(Fill(p[0], t), p[1..])
  }

  function FrameBefore<V>(f: Frame<V>): seq<Entry<V>>
  {
    match f
    case AsLeft(_, _, _, _) => []
    case AsRight(_, k, v, s) => Inorder(s) + [Entry(k, v)]
  }

  function FrameAfter<V>(f: Frame<V>): seq<Entry<V>>
  {
    match f
    case AsLeft(_, k, v, s) => [Entry(k, v)] + Inorder(s)
    case AsRight(_, _, _, _) => []
  }

  /** The entries of the whole tree that come before the focus in order. */
  function Before<V>(p: seq<Frame<V>>): seq<Entry<V>>
    decreases |p|
  {
    if p == [] then [] else Before(p[1..]) + FrameBefore(p[0])
  }

  /** The entries of the whole tree that come after the focus in order. */
  function After<V>(p: seq<Frame<V>>): seq<Entry<V>>
    decreases |p|
  {
    if p == [] then [] else FrameAfter(p[0]) + After(p[1..])
  }

  /** The in-order sequence of a plugged tree: what is before the focus, the focus, what is after. */
  lemma {:induction false} PlugInorder<V>(t: RB<V>, p: seq<Frame<V>>)
    ensures Inorder(Plug(t, p)) == Before(p) + Inorder(t) + After(p)
    decreases |p|
  {
    if p != [] {
      var f, q := p[0], p[1..];
      PlugInorder(Fill(f, t), q);
      FillInorder(f, t);
      var b, a := Before(q), After(q);
      var fb, ft, fa := FrameBefore(f), Inorder(t), FrameAfter(f);
      assert Plug(t, p) == Plug(Fill(f, t), q);
      Regroup(b, fb, ft, fa, a);
      assert Before(p) == b + fb;
      assert After(p) == fa + a;
    }
  }

  lemma FillInorder<V>(f: Frame<V>, t: RB<V>)
    ensures Inorder(Fill(f, t)) == FrameBefore(f) + Inorder(t) + FrameAfter(f)
  {
    match f
    case AsLeft(c, k, v, s) =>
      assert Inorder(Fill(f, t)) == Inorder(t) + [Entry(k, v)] + Inorder(s);
    case AsRight(c, k, v, s) =>
      assert Inorder(Fill(f, t)) == Inorder(s) + [Entry(k, v)] + Inorder(t);
  }

  /** Recolouring a frame's node does not move any entry. */
  lemma PaintInorder<V>(f: Frame<V>, c: Color, t: RB<V>)
    ensures Inorder(Fill(Paint(f, c), t)) == Inorder(Fill(f, t))
  {
  }

  lemma PlugCons<V>(t: RB<V>, f: Frame<V>, p: seq<Frame<V>>)
    ensures Plug(t, [f] + p) == Plug(Fill(f, t), p)
  {
    assert ([f] + p)[0] == f && ([f] + p)[1..] == p;
  }

  lemma BeforeAfterCons<V>(f: Frame<V>, p: seq<Frame<V>>)
    ensures Before([f] + p) == Before(p) + FrameBefore(f)
    ensures After([f] + p) == FrameAfter(f) + After(p)
  {
    assert ([f] + p)[0] == f && ([f] + p)[1..] == p;
  }

  lemma PathBalancedCons<V>(f: Frame<V>, p: seq<Frame<V>>, h: nat)
    ensures PathBalanced([f] + p, h) <==>
      Balanced(f.sibling) && BH(f.sibling) == h && PathBalanced(p, h + (if f.color == Black then 1 else 0))
  {
    assert ([f] + p)[0] == f && ([f] + p)[1..] == p;
  }

  lemma FramesRedOKCons<V>(f: Frame<V>, p: seq<Frame<V>>)
    ensures FramesRedOK([f] + p) <==>
      RedOK(f.sibling) && (f.color == Red ==> !IsRed(f.sibling)) &&
      (p != [] && p[0].color == Red ==> f.color == Black) && FramesRedOK(p)
  {
    assert ([f] + p)[0] == f && ([f] + p)[1..] == p;
  }

  /** Replacing the focus by a subtree with the same entries keeps the whole tree's entries. */
  lemma PlugSameInorder<V>(t: RB<V>, t': RB<V>, p: seq<Frame<V>>)
    requires Inorder(t) == Inorder(t')
    ensures Inorder(Plug(t, p)) == Inorder(Plug(t', p))
  {
    PlugInorder(t, p);
    PlugInorder(t', p);
  }

  lemma {:induction false} PlugAppend<V>(t: RB<V>, a: seq<Frame<V>>, b: seq<Frame<V>>)
    ensures Plug(t, a + b) == Plug(Plug(t, a), b)
    decreases |a|
  {
    if a != [] {
      assert (a + b)[0] == a[0] && (a + b)[1..] == a[1..] + b;
      PlugAppend(Fill(a[0], t), a[1..], b);
    } else {
      assert a + b == b;
    }
  }

  lemma {:induction false} BeforeAfterAppend<V>(a: seq<Frame<V>>, b: seq<Frame<V>>)
    ensures Before(a + b) == Before(b) + Before(a)
    ensures After(a + b) == After(a) + After(b)
    decreases |a|
  {
    if a != [] {
      assert (a + b)[0] == a[0] && (a + b)[1..] == a[1..] + b;
      BeforeAfterAppend(a[1..], b);
    } else {
      assert a + b == b;
    }
  }

  /** The sibling subtrees along the path are balanced and their black-height
      matches that of the slot they stand beside, h at the bottom. */
  ghost predicate PathBalanced<V>(p: seq<Frame<V>>, h: nat)
    decreases |p|
  {
    p == [] ||
    (Balanced(p[0].sibling) && BH(p[0].sibling) == h &&
     PathBalanced(p[1..], h + (if p[0].color == Black then 1 else 0)))
  }

  /** No Red-Red edge along the path, except possibly between the focus and its parent. */
  ghost predicate FramesRedOK<V>(p: seq<Frame<V>>)
    decreases |p|
  {
    p == [] ||
    (RedOK(p[0].sibling) &&
     (p[0].color == Red ==> !IsRed(p[0].sibling)) &&
     (|p| > 1 && p[1].color == Red ==> p[0].color == Black) &&
     FramesRedOK(p[1..]))
  }

  lemma FillBalanced<V>(f: Frame<V>, t: RB<V>)
    ensures Balanced(Fill(f, t)) <==> Balanced(t) && Balanced(f.sibling) && BH(f.sibling) == BH(t)
    ensures Balanced(Fill(f, t)) ==> BH(Fill(f, t)) == BH(t) + (if f.color == Black then 1 else 0)
  {
  }

  /** Plugging two subtrees of the same shape into one path gives trees of the same shape. */
  lemma {:induction false} PlugSameShape<V>(a: RB<V>, b: RB<V>, p: seq<Frame<V>>)
    requires SameShape(a, b)
    ensures SameShape(Plug(a, p), Plug(b, p))
    decreases |p|
  {
    if p != [] {
      SameShapeRefl(p[0].sibling);
      PlugSameShape(Fill(p[0], a), Fill(p[0], b), p[1..]);
    }
  }

  /** Black-height balance of a plugged tree splits into the focus and the path. */
  lemma {:induction false} PlugBalanced<V>(t: RB<V>, p: seq<Frame<V>>)
    ensures Balanced(Plug(t, p)) <==> Balanced(t) && PathBalanced(p, BH(t))
    decreases |p|
  {
    if p != [] {
      FillBalanced(p[0], t);
      PlugBalanced(Fill(p[0], t), p[1..]);
    }
  }

  /** The no-Red-Red rule of a plugged tree splits into the focus, the path and the focus-parent edge. */
  lemma {:induction false} PlugRedOK<V>(t: RB<V>, p: seq<Frame<V>>)
    ensures RedOK(Plug(t, p)) <==>
      RedOK(t) && FramesRedOK(p) && (p != [] && p[0].color == Red ==> !IsRed(t))
    decreases |p|
  {
    if p != [] {
      PlugRedOK(Fill(p[0], t), p[1..]);
    }
  }

  /** The root of a plugged tree is the last frame's node, or the focus when the path is empty. */
  lemma {:induction false} PlugRoot<V>(t: RB<V>, p: seq<Frame<V>>)
    ensures p == [] ==> Plug(t, p) == t
    ensures p != [] ==> Plug(t, p).Node? && Plug(t, p).color == p[|p| - 1].color
    decreases |p|
  {
    if p != [] {
      PlugRoot(Fill(p[0], t), p[1..]);
    }
  }
}
