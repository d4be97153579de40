/** Delete: getMinimum, transplant, unlinking the node that holds the key, and
    fixupDelete (RB-DELETE-FIXUP of Cormen et al., Introduction to Algorithms,
    ch. 13). The node x that takes the removed node's place is the focus of a
    zipper, so its parent is known even when x is nil. */
module Delete {
  import opened RBTypes
  import opened Mapping
  import opened Zipper
  import opened Lookup
  import opened Rotations

  ghost predicate AllLeft<V>(p: seq<Frame<V>>)
  {
    forall i :: 0 <= i < |p| ==> p[i].AsLeft?
  }

  lemma {:induction false} AllLeftBefore<V>(p: seq<Frame<V>>)
    requires AllLeft(p)
    ensures Before(p) == []
    decreases |p|
  {
    if p != [] {
      AllLeftBefore(p[1..]);
    }
  }

  /** getMinimum: follow Left pointers from x (not nil) down to the node with no
      Left child. The frames passed are all AsLeft frames pushed onto p, and the
      minimum's subtree is followed in order only by what those frames hold. */
  method GetMinimum<V>(x: RB<V>, p: seq<Frame<V>>) returns (m: Zip<V>)
    requires x.Node?
    ensures m.focus.Node? && m.focus.left.Nil?
    ensures Plug(m.focus, m.path) == Plug(x, p)
    ensures |p| <= |m.path| && m.path[|m.path| - |p|..] == p
    ensures AllLeft(m.path[..|m.path| - |p|])
    ensures Inorder(x) == Inorder(m.focus) + After(m.path[..|m.path| - |p|])
    ensures Ordered(x) ==> LeastKey(x, m.focus.key)
  {
    var y, q := x, p;
    ghost var inner: seq<Frame<V>> := [];
    while y.left.Node?
      invariant y.Node? && q == inner + p && AllLeft(inner)
      invariant Plug(y, q) == Plug(x, p)
      invariant Inorder(x) == Inorder(y) + After(inner)
      decreases y
    {
      var f := AsLeft(y.color, y.key, y.payload, y.right);
      MinimumStep(y, f, q, inner, p);
      inner, q, y := [f] + inner, [f] + q, y.left;
    }
    assert q[..|q| - |p|] == inner;
    m := Zip(y, q);
    if Ordered(x) {
      assert Inorder(y) == [] + [Entry(y.key, y.payload)] + Inorder(y.right);
      assert Inorder(x)[0] == Entry(y.key, y.payload);
      MinimumIsLeast(x);
    }
  }

  /** One step of getMinimum, moving from y to y.Left. */
  lemma MinimumStep<V>(y: RB<V>, f: Frame<V>, q: seq<Frame<V>>, inner: seq<Frame<V>>, p: seq<Frame<V>>)
    requires y.Node? && f == AsLeft(y.color, y.key, y.payload, y.right)
    requires q == inner + p && AllLeft(inner)
    ensures Plug(y.left, [f] + q) == Plug(y, q)
    ensures [f] + q == ([f] + inner) + p && AllLeft([f] + inner)
    ensures Inorder(y) + After(inner) == Inorder(y.left) + After([f] + inner)
  {
    PlugCons(y.left, f, q);
    AllLeftCons(f, inner);
    BeforeAfterCons(f, inner);
    Assoc([f], inner, p);
    var l, e, r, a := Inorder(y.left), [Entry(y.key, y.payload)], Inorder(y.right), After(inner);
    assert FrameAfter(f) == e + r;
    assert Inorder(y) == l + e + r;
    Assoc(l, e, r);
    Assoc(l, e + r, a);
  }

  lemma AllLeftCons<V>(f: Frame<V>, p: seq<Frame<V>>)
    requires f.AsLeft? && AllLeft(p)
    ensures AllLeft([f] + p)
  {
    forall i | 0 <= i < |[f] + p| ensures ([f] + p)[i].AsLeft? {
      if i > 0 { assert ([f] + p)[i] == p[i - 1]; }
    }
  }

  /** No key of t is below k. */
  ghost predicate LeastKey<V>(t: RB<V>, k: int)
  {
    forall k' :: k' in Keys(t) ==> k <= k'
  }

  /** In an ordered tree the first entry in order holds the least key. */
  lemma MinimumIsLeast<V>(t: RB<V>)
    requires Ordered(t) && t.Node?
    ensures LeastKey(t, Inorder(t)[0].key)
  {
    var s := Inorder(t);
    assert |s| > 0 by {
      assert s == Inorder(t.left) + [Entry(t.key, t.payload)] + Inorder(t.right);
    }
    forall k | k in Keys(t) ensures s[0].key <= k {
      var i :| 0 <= i < |s| && s[i].key == k;
    }
  }

  /** transplant(u, v): v takes u's place under u's parent, or becomes the root. */
  function Transplant<V>(u: Zip<V>, v: RB<V>): (t: RB<V>)
    ensures Inorder(t) == Before(u.path) + Inorder(v) + After(u.path)
    ensures u.path == [] ==> t == v
    ensures u.path != [] ==> t.Node? && t.color == Last(u.path).color
  {
    PlugInorder(v, u.path);
    PlugRoot(v, u.path);
    Plug(v, u.path)
  }

  /** Two paths that agree on every frame's colour and sibling. */
  ghost predicate SameColors<V>(p: seq<Frame<V>>, p': seq<Frame<V>>)
  {
    |p| == |p'| && forall i :: 0 <= i < |p| ==> p[i].color == p'[i].color && p[i].sibling == p'[i].sibling
  }

  /** Balance and the no-Red-Red rule along a path depend only on colours and siblings. */
  lemma {:induction false} SameColorsInvariants<V>(p: seq<Frame<V>>, p': seq<Frame<V>>, h: nat)
    requires SameColors(p, p')
    ensures PathBalanced(p, h) <==> PathBalanced(p', h)
    ensures FramesRedOK(p) <==> FramesRedOK(p')
    decreases |p|
  {
    if p != [] {
      assert SameColors(p[1..], p'[1..]) by {
        forall i | 0 <= i < |p[1..]| ensures p[1..][i].color == p'[1..][i].color && p[1..][i].sibling == p'[1..][i].sibling {
          assert p[1..][i] == p[i + 1] && p'[1..][i] == p'[i + 1];
        }
      }
      SameColorsInvariants(p[1..], p'[1..], h + (if p[0].color == Black then 1 else 0));
    }
  }

  /** The tree around the focus of a Delete is one Black short along the focus'
      slot (x "carries an extra Black"), and is otherwise a red-black tree. */
  ghost predicate DoubleBlack<V>(x: RB<V>, p: seq<Frame<V>>)
  {
    Balanced(x) && PathBalanced(p, BH(x) + 1) &&
    RedOK(Recolor(x, Black)) && FramesRedOK(p) &&
    (p != [] ==> Last(p).color == Black)
  }

  ghost predicate RBShape<V>(t: RB<V>)
  {
    RedOK(t) && Balanced(t) && !IsRed(t)
  }

  lemma LastCons<V>(f: Frame<V>, q: seq<Frame<V>>)
    ensures Last([f] + q) == if q == [] then f else Last(q)
  {
  }

  /** Removing a node n that has a nil child, from a red-black tree, and hanging
      its other child x in its place: with a Black n the tree is one Black short
      at x, with a Red n it is still a red-black tree. The path p' may differ
      from n's path in keys and payloads, but not in colours or siblings. */
  lemma RemoveOneChild<V>(n: RB<V>, x: RB<V>, p: seq<Frame<V>>, p': seq<Frame<V>>)
    requires n.Node? && ((n.left.Nil? && x == n.right) || (n.right.Nil? && x == n.left))
    requires SameColors(p, p')
    requires RBShape(Plug(n, p))
    ensures n.color == Black ==> DoubleBlack(x, p')
    ensures n.color == Red ==> RBShape(Plug(x, p'))
  {
    PlugBalanced(n, p);
    PlugRedOK(n, p);
    PlugRoot(n, p);
    SameColorsInvariants(p, p', BH(n));
    if p != [] {
      assert p[0].color == p'[0].color;
      assert p[|p| - 1].color == p'[|p'| - 1].color;
    }
    assert BH(n) == BH(x) + (if n.color == Black then 1 else 0);
    if n.color == Red {
      PlugBalanced(x, p');
      PlugRedOK(x, p');
      PlugRoot(x, p');
    }
  }

  /** The unlinking step of Delete (everything before fixupDelete), from the
      located node z: the node x that moves into the vacated slot, its path,
      and the colour of the node that was spliced out of the tree. */
  method Unlink<V>(z: RB<V>, zp: seq<Frame<V>>) returns (x: RB<V>, xp: seq<Frame<V>>, removed: Color)
    requires z.Node?
    ensures Inorder(Plug(x, xp)) == Before(zp) + Inorder(z.left) + Inorder(z.right) + After(zp)
    ensures RBShape(Plug(z, zp)) && removed == Black ==> DoubleBlack(x, xp)
    ensures RBShape(Plug(z, zp)) && removed == Red ==> RBShape(Plug(x, xp))
  {
    assert SameColors(zp, zp);
    if z.left.Nil? {
      // one child (Right): transplant(z, z.Right)
      x, xp, removed := z.right, zp, z.color;
      OneChildEntries(z, x, zp);
      if RBShape(Plug(z, zp)) { RemoveOneChild(z, x, zp, zp); }
    } else if z.right.Nil? {
      // one child (Left): transplant(z, z.Left)
      x, xp, removed := z.left, zp, z.color;
      OneChildEntries(z, x, zp);
      if RBShape(Plug(z, zp)) { RemoveOneChild(z, x, zp, zp); }
    } else {
      // two children: the minimum y of z.Right takes z's place and colour
      var f := AsRight(z.color, z.key, z.payload, z.left);
      var m := GetMinimum(z.right, [f] + zp);
      var y := m.focus;
      var inner := m.path[..|m.path| - |zp| - 1];
      assert m.path == inner + [f] + zp by {
        assert m.path == m.path[..|m.path| - |zp| - 1] + m.path[|m.path| - |zp| - 1..];
      }
      x, removed := y.right, y.color;
      var f' := AsRight(z.color, y.key, y.payload, z.left);
      xp := inner + [f'] + zp;
      PlugCons(z.right, f, zp);
      assert Fill(f, z.right) == z;
      AllLeftBefore(inner);
      TwoChildEntries(z, zp, y, inner);
      if RBShape(Plug(z, zp)) {
        TwoChildColors(z, zp, y, inner);
      }
    }
  }

  /** One child: transplant(z, x) leaves all of z's entries but z's own. */
  lemma OneChildEntries<V>(z: RB<V>, x: RB<V>, zp: seq<Frame<V>>)
    requires z.Node? && ((z.left.Nil? && x == z.right) || (z.right.Nil? && x == z.left))
    ensures Inorder(Plug(x, zp)) == Before(zp) + Inorder(z.left) + Inorder(z.right) + After(zp)
  {
    assert Transplant(Zip(z, zp), x) == Plug(x, zp);
    var l, r := Inorder(z.left), Inorder(z.right);
    assert l + r == Inorder(x) by {
      if z.left.Nil? {
        assert l == [];
      } else {
        assert r == [];
      }
    }
    Assoc(Before(zp), l, r);
  }

  /** Two children: the minimum y of z.Right takes z's place; the entries are
      those of z's subtrees, without z's. */
  lemma TwoChildEntries<V>(z: RB<V>, zp: seq<Frame<V>>, y: RB<V>, inner: seq<Frame<V>>)
    requires z.Node? && y.Node? && y.left.Nil? && Before(inner) == []
    requires Inorder(z.right) == Inorder(y) + After(inner)
    ensures Inorder(Plug(y.right, inner + [AsRight(z.color, y.key, y.payload, z.left)] + zp)) ==
      Before(zp) + Inorder(z.left) + Inorder(z.right) + After(zp)
  {
    var f' := AsRight(z.color, y.key, y.payload, z.left);
    var xp := inner + [f'] + zp;
    var bz, az, l, e, ai := Before(zp), After(zp), Inorder(z.left), [Entry(y.key, y.payload)], After(inner);
    var x := Inorder(y.right);
    assert Inorder(Plug(y.right, xp)) == (bz + (l + e)) + x + (ai + az) by {
      SplicedPath(inner, f', zp);
      PlugInorder(y.right, xp);
    }
    assert Inorder(z.right) == (e + x) + ai by {
      assert Inorder(y) == e + x;
    }
    SeqAssoc5(bz, l, e, x, ai, az);
  }

  lemma SeqAssoc5<T>(a: seq<T>, b: seq<T>, c: seq<T>, d: seq<T>, e: seq<T>, f: seq<T>)
    ensures (a + (b + c)) + d + (e + f) == a + b + ((c + d) + e) + f
  {
  }

  /** The entries before and after a slot below a run of AsLeft frames. */
  lemma SplicedPath<V>(inner: seq<Frame<V>>, f: Frame<V>, zp: seq<Frame<V>>)
    requires Before(inner) == [] && f.AsRight?
    ensures Before(inner + [f] + zp) == Before(zp) + (Inorder(f.sibling) + [Entry(f.key, f.payload)])
    ensures After(inner + [f] + zp) == After(inner) + After(zp)
  {
    var r := [f] + zp;
    assert inner + [f] + zp == inner + r;
    BeforeAfterAppend(inner, r);
    BeforeAfterCons(f, zp);
    var fb := FrameBefore(f);
    assert fb == Inorder(f.sibling) + [Entry(f.key, f.payload)];
    assert FrameAfter(f) == [];
    var b, a := Before(zp), After(zp);
    assert Before(r) + [] == Before(r);
    assert [] + a == a;
  }


  /** Two children: y's old path and x's new path differ only in the frame
      where z was, which keeps z's colour and left subtree. */
  lemma TwoChildColors<V>(z: RB<V>, zp: seq<Frame<V>>, y: RB<V>, inner: seq<Frame<V>>)
    requires z.Node? && y.Node? && y.left.Nil?
    requires Plug(y, inner + [AsRight(z.color, z.key, z.payload, z.left)] + zp) == Plug(z, zp)
    requires RBShape(Plug(z, zp))
    ensures y.color == Black ==> DoubleBlack(y.right, inner + [AsRight(z.color, y.key, y.payload, z.left)] + zp)
    ensures y.color == Red ==> RBShape(Plug(y.right, inner + [AsRight(z.color, y.key, y.payload, z.left)] + zp))
  {
    var f, f' := AsRight(z.color, z.key, z.payload, z.left), AsRight(z.color, y.key, y.payload, z.left);
    var p, xp := inner + [f] + zp, inner + [f'] + zp;
    assert SameColors(p, xp) by {
      forall i | 0 <= i < |xp| ensures p[i].color == xp[i].color && p[i].sibling == xp[i].sibling {
        if i < |inner| {
          assert p[i] == inner[i] && xp[i] == inner[i];
        } else if i == |inner| {
          assert p[i] == f && xp[i] == f';
        } else {
          assert p[i] == zp[i - |inner| - 1] && xp[i] == zp[i - |inner| - 1];
        }
      }
    }
    RemoveOneChild(y, y.right, p, xp);
  }

  /** A sibling one Black deeper than nil is not nil. */
  lemma SiblingExists<V>(x: RB<V>, f: Frame<V>, q: seq<Frame<V>>)
    requires DoubleBlack(x, [f] + q)
    ensures f.sibling.Node?
  {
    PathBalancedCons(f, q, BH(x) + 1);
  }

  // Each case of the loop body of fixupDelete, for x the Right child of its
  // parent (pc, pk, pv) with sibling w, and the mirror image for x the Left
  // child. Each keeps the entries of the tree and, on a tree one Black short
  // at x, the invariant DoubleBlack.

  /** case 1, x Right: w Black, parent Red, RotateRight(parent); the new sibling is w.Right. */
  lemma DelCase1R<V>(x: RB<V>, pc: Color, pk: int, pv: V, w: RB<V>, q: seq<Frame<V>>)
    requires IsRed(w) && !IsRed(x)
    ensures Inorder(Plug(x, [AsRight(Red, pk, pv, w.right), AsRight(Black, w.key, w.payload, w.left)] + q)) ==
            Inorder(Plug(x, [AsRight(pc, pk, pv, w)] + q))
    ensures DoubleBlack(x, [AsRight(pc, pk, pv, w)] + q) ==>
      DoubleBlack(x, [AsRight(Red, pk, pv, w.right), AsRight(Black, w.key, w.payload, w.left)] + q) &&
      w.right.Node? && !IsRed(w.right)
  {
    var f := AsRight(pc, pk, pv, w);
    var a, b := AsRight(Red, pk, pv, w.right), AsRight(Black, w.key, w.payload, w.left);
    assert [a, b] + q == [a] + ([b] + q);
    PlugCons(x, a, [b] + q);
    PlugCons(Fill(a, x), b, q);
    PlugCons(x, f, q);
    PlugSameInorder(Fill(b, Fill(a, x)), Fill(f, x), q);
    if DoubleBlack(x, [f] + q) {
      var h := BH(x) + 1;
      PathBalancedCons(f, q, h);
      FramesRedOKCons(f, q);
      PathBalancedCons(a, [b] + q, h);
      PathBalancedCons(b, q, h);
      FramesRedOKCons(a, [b] + q);
      FramesRedOKCons(b, q);
      LastCons(f, q);
      LastCons(b, q);
      LastCons(a, [b] + q);
    }
  }

  lemma DelCase1L<V>(x: RB<V>, pc: Color, pk: int, pv: V, w: RB<V>, q: seq<Frame<V>>)
    requires IsRed(w) && !IsRed(x)
    ensures Inorder(Plug(x, [AsLeft(Red, pk, pv, w.left), AsLeft(Black, w.key, w.payload, w.right)] + q)) ==
            Inorder(Plug(x, [AsLeft(pc, pk, pv, w)] + q))
    ensures DoubleBlack(x, [AsLeft(pc, pk, pv, w)] + q) ==>
      DoubleBlack(x, [AsLeft(Red, pk, pv, w.left), AsLeft(Black, w.key, w.payload, w.right)] + q) &&
      w.left.Node? && !IsRed(w.left)
  {
    var f := AsLeft(pc, pk, pv, w);
    var a, b := AsLeft(Red, pk, pv, w.left), AsLeft(Black, w.key, w.payload, w.right);
    assert [a, b] + q == [a] + ([b] + q);
    PlugCons(x, a, [b] + q);
    PlugCons(Fill(a, x), b, q);
    PlugCons(x, f, q);
    PlugSameInorder(Fill(b, Fill(a, x)), Fill(f, x), q);
    if DoubleBlack(x, [f] + q) {
      var h := BH(x) + 1;
      PathBalancedCons(f, q, h);
      FramesRedOKCons(f, q);
      PathBalancedCons(a, [b] + q, h);
      PathBalancedCons(b, q, h);
      FramesRedOKCons(a, [b] + q);
      FramesRedOKCons(b, q);
      LastCons(f, q);
      LastCons(b, q);
      LastCons(a, [b] + q);
    }
  }

  /** case 2, x Right: both children of w Black; w turns Red and x moves up to the parent. */
  lemma DelCase2R<V>(x: RB<V>, pc: Color, pk: int, pv: V, w: RB<V>, q: seq<Frame<V>>)
    requires w.Node? && !IsRed(w.left) && !IsRed(w.right) && !IsRed(x)
    ensures Inorder(Plug(Node(pc, pk, pv, Recolor(w, Red), x), q)) == Inorder(Plug(x, [AsRight(pc, pk, pv, w)] + q))
    ensures DoubleBlack(x, [AsRight(pc, pk, pv, w)] + q) && !IsRed(w) ==>
      DoubleBlack(Node(pc, pk, pv, Recolor(w, Red), x), q)
  {
    var f := AsRight(pc, pk, pv, w);
    PlugCons(x, f, q);
    PlugSameInorder(Node(pc, pk, pv, Recolor(w, Red), x), Fill(f, x), q);
    if DoubleBlack(x, [f] + q) && !IsRed(w) {
      PathBalancedCons(f, q, BH(x) + 1);
      FramesRedOKCons(f, q);
      LastCons(f, q);
    }
  }

  lemma DelCase2L<V>(x: RB<V>, pc: Color, pk: int, pv: V, w: RB<V>, q: seq<Frame<V>>)
    requires w.Node? && !IsRed(w.left) && !IsRed(w.right) && !IsRed(x)
    ensures Inorder(Plug(Node(pc, pk, pv, x, Recolor(w, Red)), q)) == Inorder(Plug(x, [AsLeft(pc, pk, pv, w)] + q))
    ensures DoubleBlack(x, [AsLeft(pc, pk, pv, w)] + q) && !IsRed(w) ==>
      DoubleBlack(Node(pc, pk, pv, x, Recolor(w, Red)), q)
  {
    var f := AsLeft(pc, pk, pv, w);
    PlugCons(x, f, q);
    PlugSameInorder(Node(pc, pk, pv, x, Recolor(w, Red)), Fill(f, x), q);
    if DoubleBlack(x, [f] + q) && !IsRed(w) {
      PathBalancedCons(f, q, BH(x) + 1);
      FramesRedOKCons(f, q);
      LastCons(f, q);
    }
  }

  /** case 3, x Right: w.Right Red, w.Left Black; w.Right turns Black, w Red,
      RotateLeft(w); afterwards the new sibling has a Red Left child. */
  lemma DelCase3R<V>(x: RB<V>, pc: Color, pk: int, pv: V, w: RB<V>, q: seq<Frame<V>>)
    requires w.Node? && IsRed(w.right) && !IsRed(w.left) && !IsRed(x)
    ensures
      var w' := RotateLeftTree(Node(Red, w.key, w.payload, w.left, Recolor(w.right, Black)));
      && Inorder(Plug(x, [AsRight(pc, pk, pv, w')] + q)) == Inorder(Plug(x, [AsRight(pc, pk, pv, w)] + q))
      && w'.Node? && IsRed(w'.left)
      && (DoubleBlack(x, [AsRight(pc, pk, pv, w)] + q) && !IsRed(w) ==>
            DoubleBlack(x, [AsRight(pc, pk, pv, w')] + q) && !IsRed(w'))
  {
    var w' := RotateLeftTree(Node(Red, w.key, w.payload, w.left, Recolor(w.right, Black)));
    var r := w.right;
    assert w' == Node(Black, r.key, r.payload, Node(Red, w.key, w.payload, w.left, r.left), r.right);
    var f, f' := AsRight(pc, pk, pv, w), AsRight(pc, pk, pv, w');
    assert Inorder(Plug(x, [f'] + q)) == Inorder(Plug(x, [f] + q)) by {
      RecolorInorder(r, Black);
      assert Inorder(Fill(f', x)) == Inorder(Fill(f, x));
      PlugCons(x, f, q);
      PlugCons(x, f', q);
      PlugSameInorder(Fill(f', x), Fill(f, x), q);
    }
    assert DoubleBlack(x, [f] + q) && !IsRed(w) ==> DoubleBlack(x, [f'] + q) && !IsRed(w') by {
    if DoubleBlack(x, [f] + q) && !IsRed(w) {
      assert Balanced(w) && RedOK(w) && BH(w) == BH(x) + 1 && PathBalanced(q, BH(x) + 1 + (if pc == Black then 1 else 0)) by {
        PathBalancedCons(f, q, BH(x) + 1);
        FramesRedOKCons(f, q);
      }
      DelCase3Shape(w.color, w.key, w.payload, w.left, r.key, r.payload, r.left, r.right);
      assert PathBalanced([f'] + q, BH(x) + 1) by {
        PathBalancedCons(f', q, BH(x) + 1);
      }
      assert FramesRedOK([f'] + q) by {
        FramesRedOKCons(f, q);
        FramesRedOKCons(f', q);
      }
      LastCons(f, q);
      LastCons(f', q);
    }
    }
  }

  /** The recolouring and rotation of case 3 (x Right) keep black-height and the no-Red-Red rule. */
  lemma DelCase3Shape<V>(c: Color, wk: int, wv: V, a: RB<V>, rk: int, rv: V, b: RB<V>, d: RB<V>)
    requires c == Black && !IsRed(a)
    requires var w := Node(c, wk, wv, a, Node(Red, rk, rv, b, d)); Balanced(w) && RedOK(w)
    ensures var w' := Node(Black, rk, rv, Node(Red, wk, wv, a, b), d);
      Balanced(w') && RedOK(w') && BH(w') == BH(Node(c, wk, wv, a, Node(Red, rk, rv, b, d)))
  {
  }

  lemma DelCase3ShapeMirror<V>(c: Color, wk: int, wv: V, lk: int, lv: V, a: RB<V>, b: RB<V>, d: RB<V>)
    requires c == Black && !IsRed(d)
    requires var w := Node(c, wk, wv, Node(Red, lk, lv, a, b), d); Balanced(w) && RedOK(w)
    ensures var w' := Node(Black, lk, lv, a, Node(Red, wk, wv, b, d));
      Balanced(w') && RedOK(w') && BH(w') == BH(Node(c, wk, wv, Node(Red, lk, lv, a, b), d))
  {
  }

  lemma DelCase3L<V>(x: RB<V>, pc: Color, pk: int, pv: V, w: RB<V>, q: seq<Frame<V>>)
    requires w.Node? && IsRed(w.left) && !IsRed(w.right) && !IsRed(x)
    ensures
      var w' := RotateRightTree(Node(Red, w.key, w.payload, Recolor(w.left, Black), w.right));
      && Inorder(Plug(x, [AsLeft(pc, pk, pv, w')] + q)) == Inorder(Plug(x, [AsLeft(pc, pk, pv, w)] + q))
      && w'.Node? && IsRed(w'.right)
      && (DoubleBlack(x, [AsLeft(pc, pk, pv, w)] + q) && !IsRed(w) ==>
            DoubleBlack(x, [AsLeft(pc, pk, pv, w')] + q) && !IsRed(w'))
  {
    var w' := RotateRightTree(Node(Red, w.key, w.payload, Recolor(w.left, Black), w.right));
    var l := w.left;
    assert w' == Node(Black, l.key, l.payload, l.left, Node(Red, w.key, w.payload, l.right, w.right));
    var f, f' := AsLeft(pc, pk, pv, w), AsLeft(pc, pk, pv, w');
    assert Inorder(Plug(x, [f'] + q)) == Inorder(Plug(x, [f] + q)) by {
      RecolorInorder(l, Black);
      assert Inorder(Fill(f', x)) == Inorder(Fill(f, x));
      PlugCons(x, f, q);
      PlugCons(x, f', q);
      PlugSameInorder(Fill(f', x), Fill(f, x), q);
    }
    assert DoubleBlack(x, [f] + q) && !IsRed(w) ==> DoubleBlack(x, [f'] + q) && !IsRed(w') by {
    if DoubleBlack(x, [f] + q) && !IsRed(w) {
      assert Balanced(w) && RedOK(w) && BH(w) == BH(x) + 1 && PathBalanced(q, BH(x) + 1 + (if pc == Black then 1 else 0)) by {
        PathBalancedCons(f, q, BH(x) + 1);
        FramesRedOKCons(f, q);
      }
      DelCase3ShapeMirror(w.color, w.key, w.payload, l.key, l.payload, l.left, l.right, w.right);
      assert PathBalanced([f'] + q, BH(x) + 1) by {
        PathBalancedCons(f', q, BH(x) + 1);
      }
      assert FramesRedOK([f'] + q) by {
        FramesRedOKCons(f, q);
        FramesRedOKCons(f', q);
      }
      LastCons(f, q);
      LastCons(f', q);
    }
    }
  }

  /** case 4, x Right: w.Left Red; w takes the parent's colour, the parent and
      w.Left turn Black, RotateRight(parent); x becomes the root and the tree is
      a red-black tree again. */
  lemma DelCase4R<V>(x: RB<V>, pc: Color, pk: int, pv: V, w: RB<V>, q: seq<Frame<V>>)
    requires w.Node? && IsRed(w.left) && !IsRed(x)
    ensures
      var t := RotateRightTree(Node(Black, pk, pv, Node(pc, w.key, w.payload, Recolor(w.left, Black), w.right), x));
      && Inorder(Plug(t, q)) == Inorder(Plug(x, [AsRight(pc, pk, pv, w)] + q))
      && (DoubleBlack(x, [AsRight(pc, pk, pv, w)] + q) && !IsRed(w) ==> DoubleBlack(Plug(t, q), []))
  {
    var t := RotateRightTree(Node(Black, pk, pv, Node(pc, w.key, w.payload, Recolor(w.left, Black), w.right), x));
    assert t == Node(pc, w.key, w.payload, Recolor(w.left, Black), Node(Black, pk, pv, w.right, x));
    var f := AsRight(pc, pk, pv, w);
    assert Inorder(Plug(t, q)) == Inorder(Plug(x, [f] + q)) by {
      RecolorInorder(w.left, Black);
      assert Inorder(t) == Inorder(Fill(f, x));
      PlugCons(x, f, q);
      PlugSameInorder(t, Fill(f, x), q);
    }
    if DoubleBlack(x, [f] + q) && !IsRed(w) {
      assert Balanced(w) && RedOK(w) && BH(w) == BH(x) + 1 && (pc == Red ==> !IsRed(w)) by {
        PathBalancedCons(f, q, BH(x) + 1);
        FramesRedOKCons(f, q);
      }
      assert Balanced(x) && RedOK(x) by {
        assert Recolor(x, Black) == x;
      }
      DelCase4Shape(pc, pk, pv, w.key, w.payload, w.left, w.right, x);
      assert Balanced(Plug(t, q)) by {
        PathBalancedCons(f, q, BH(x) + 1);
        PlugBalanced(t, q);
      }
      assert RedOK(Plug(t, q)) by {
        FramesRedOKCons(f, q);
        PlugRedOK(t, q);
      }
      PlugRoot(t, q);
    }
  }

  /** The recolouring and rotation of case 4 (x Right) restore the missing Black. */
  lemma DelCase4Shape<V>(pc: Color, pk: int, pv: V, wk: int, wv: V, a: RB<V>, b: RB<V>, x: RB<V>)
    requires IsRed(a) && Balanced(x) && RedOK(x)
    requires var w := Node(Black, wk, wv, a, b); Balanced(w) && RedOK(w) && BH(w) == BH(x) + 1
    ensures var t := Node(pc, wk, wv, Recolor(a, Black), Node(Black, pk, pv, b, x));
      Balanced(t) && RedOK(t) && BH(t) == BH(x) + 1 + (if pc == Black then 1 else 0)
  {
  }

  lemma DelCase4ShapeMirror<V>(pc: Color, pk: int, pv: V, wk: int, wv: V, a: RB<V>, b: RB<V>, x: RB<V>)
    requires IsRed(b) && Balanced(x) && RedOK(x)
    requires var w := Node(Black, wk, wv, a, b); Balanced(w) && RedOK(w) && BH(w) == BH(x) + 1
    ensures var t := Node(pc, wk, wv, Node(Black, pk, pv, x, a), Recolor(b, Black));
      Balanced(t) && RedOK(t) && BH(t) == BH(x) + 1 + (if pc == Black then 1 else 0)
  {
  }

  lemma DelCase4L<V>(x: RB<V>, pc: Color, pk: int, pv: V, w: RB<V>, q: seq<Frame<V>>)
    requires w.Node? && IsRed(w.right) && !IsRed(x)
    ensures
      var t := RotateLeftTree(Node(Black, pk, pv, x, Node(pc, w.key, w.payload, w.left, Recolor(w.right, Black))));
      && Inorder(Plug(t, q)) == Inorder(Plug(x, [AsLeft(pc, pk, pv, w)] + q))
      && (DoubleBlack(x, [AsLeft(pc, pk, pv, w)] + q) && !IsRed(w) ==> DoubleBlack(Plug(t, q), []))
  {
    var t := RotateLeftTree(Node(Black, pk, pv, x, Node(pc, w.key, w.payload, w.left, Recolor(w.right, Black))));
    assert t == Node(pc, w.key, w.payload, Node(Black, pk, pv, x, w.left), Recolor(w.right, Black));
    var f := AsLeft(pc, pk, pv, w);
    assert Inorder(Plug(t, q)) == Inorder(Plug(x, [f] + q)) by {
      RecolorInorder(w.right, Black);
      assert Inorder(t) == Inorder(Fill(f, x));
      PlugCons(x, f, q);
      PlugSameInorder(t, Fill(f, x), q);
    }
    if DoubleBlack(x, [f] + q) && !IsRed(w) {
      assert Balanced(w) && RedOK(w) && BH(w) == BH(x) + 1 && (pc == Red ==> !IsRed(w)) by {
        PathBalancedCons(f, q, BH(x) + 1);
        FramesRedOKCons(f, q);
      }
      assert Balanced(x) && RedOK(x) by {
        assert Recolor(x, Black) == x;
      }
      DelCase4ShapeMirror(pc, pk, pv, w.key, w.payload, w.left, w.right, x);
      assert Balanced(Plug(t, q)) by {
        PathBalancedCons(f, q, BH(x) + 1);
        PlugBalanced(t, q);
      }
      assert RedOK(Plug(t, q)) by {
        FramesRedOKCons(f, q);
        PlugRedOK(t, q);
      }
      PlugRoot(t, q);
    }
  }

  /** After the loop: x is Red or the root; painting it Black gives a red-black tree. */
  lemma FinishDelete<V>(x: RB<V>, p: seq<Frame<V>>)
    requires DoubleBlack(x, p) && (p == [] || IsRed(x))
    ensures RBShape(Plug(Recolor(x, Black), p))
  {
    var x' := Recolor(x, Black);
    assert Balanced(x') && RedOK(x') && !IsRed(x');
    assert p != [] ==> BH(x') == BH(x) + 1;
    PlugBalanced(x', p);
    PlugRedOK(x', p);
    PlugRoot(x', p);
  }

  /** The loop of fixupDelete and the final x.color = BLACK, from x with path p
      (x may be nil: the path still knows its parent). hangs reports that the
      loop would spin forever: x's sibling w is nil, no case applies and
      nothing changes; root is then the tree at that moment. */
  method RebalanceDelete<V>(x0: RB<V>, p0: seq<Frame<V>>) returns (root: RB<V>, hangs: bool)
    ensures Inorder(root) == Inorder(Plug(x0, p0))
    ensures DoubleBlack(x0, p0) ==> !hangs && RBShape(root)
  {
    ghost var db := DoubleBlack(x0, p0);
    var x, p := x0, p0;
    hangs := false;
    while p != [] && !IsRed(x)
      invariant Inorder(Plug(x, p)) == Inorder(Plug(x0, p0))
      invariant db ==> DoubleBlack(x, p)
      decreases |p|, (if IsRed(x) then 0 else 1)
    {
      var f, q := p[0], p[1..];
      assert p == [f] + q;
      if f.AsRight? {
        // x is its parent's Right child; w is its sibling
        var w, pc, pk, pv, rest := f.sibling, f.color, f.key, f.payload, q;
        if IsRed(w) {
          // case 1: w Black, parent Red, RotateRight(parent), w := x.parent.Left
          DelCase1R(x, pc, pk, pv, w, q);
          rest := [AsRight(Black, w.key, w.payload, w.left)] + q;
          w, pc := w.right, Red;
          assert [AsRight(Red, pk, pv, w)] + rest == [AsRight(Red, pk, pv, w), rest[0]] + q;
        } else if db {
          SiblingExists(x, f, q);
        }
        p := [AsRight(pc, pk, pv, w)] + rest;
        if w.Nil? {
          hangs := true;
          root := Plug(x, p);
          return;
        }
        if !IsRed(w.left) && !IsRed(w.right) {
          // case 2: w Red, x := x.parent
          DelCase2R(x, pc, pk, pv, w, rest);
          x, p := Node(pc, pk, pv, Recolor(w, Red), x), rest;
        } else {
          if IsRed(w.right) && !IsRed(w.left) {
            // case 3: w.Right Black, w Red, RotateLeft(w), w := x.parent.Left
            DelCase3R(x, pc, pk, pv, w, rest);
            w := RotateLeftTree(Node(Red, w.key, w.payload, w.left, Recolor(w.right, Black)));
            p := [AsRight(pc, pk, pv, w)] + rest;
          }
          // case 4: w.Left is Red
          DelCase4R(x, pc, pk, pv, w, rest);
          var t := RotateRightTree(Node(Black, pk, pv, Node(pc, w.key, w.payload, Recolor(w.left, Black), w.right), x));
          x, p := Plug(t, rest), [];
        }
      } else {
        // x is its parent's Left child; w is its sibling
        var w, pc, pk, pv, rest := f.sibling, f.color, f.key, f.payload, q;
        if IsRed(w) {
          // case 1: w Black, parent Red, RotateLeft(parent), w := x.parent.Right
          DelCase1L(x, pc, pk, pv, w, q);
          rest := [AsLeft(Black, w.key, w.payload, w.right)] + q;
          w, pc := w.left, Red;
          assert [AsLeft(Red, pk, pv, w)] + rest == [AsLeft(Red, pk, pv, w), rest[0]] + q;
        } else if db {
          SiblingExists(x, f, q);
        }
        p := [AsLeft(pc, pk, pv, w)] + rest;
        if w.Nil? {
          hangs := true;
          root := Plug(x, p);
          return;
        }
        if !IsRed(w.left) && !IsRed(w.right) {
          // case 2: w Red, x := x.parent
          DelCase2L(x, pc, pk, pv, w, rest);
          x, p := Node(pc, pk, pv, x, Recolor(w, Red)), rest;
        } else {
          if IsRed(w.left) && !IsRed(w.right) {
            // case 3: w.Left Black, w Red, RotateRight(w), w := x.parent.Right
            DelCase3L(x, pc, pk, pv, w, rest);
            w := RotateRightTree(Node(Red, w.key, w.payload, Recolor(w.left, Black), w.right));
            p := [AsLeft(pc, pk, pv, w)] + rest;
          }
          // case 4: w.Right is Red
          DelCase4L(x, pc, pk, pv, w, rest);
          var t := RotateLeftTree(Node(Black, pk, pv, x, Node(pc, w.key, w.payload, w.left, Recolor(w.right, Black))));
          x, p := Plug(t, rest), [];
        }
      }
    }
    // x.color = BLACK
    RecolorInorder(x, Black);
    PlugSameInorder(Recolor(x, Black), x, p);
    if db {
      FinishDelete(x, p);
    }
    root := Plug(Recolor(x, Black), p);
  }

  /** fixupDelete as written: it returns at once when x is nil, leaving the
      tree exactly as the unlinking step made it. That tree still has a Black
      root and no Red node with a Red child; only its Black heights may differ. */
  method FixupDelete<V>(x: RB<V>, p: seq<Frame<V>>) returns (root: RB<V>, hangs: bool)
    ensures Inorder(root) == Inorder(Plug(x, p))
    ensures x.Nil? ==> root == Plug(x, p) && !hangs
    ensures x.Nil? && DoubleBlack(x, p) ==> RedOK(root) && !IsRed(root)
    ensures x.Node? && DoubleBlack(x, p) ==> !hangs && RBShape(root)
  {
    if x.Nil? {
      PlugRedOK(x, p);
      PlugRoot(x, p);
      return Plug(x, p), false;
    }
    root, hangs := RebalanceDelete(x, p);
  }

  /** Deleting key 1 from the all-Black tree 2(1, 3): z = 1 has no Left child,
      so x = z.Right is nil. The early return of fixupDelete leaves the tree
      that transplant made, whose two sides of 2 differ in Black height, although
      x's slot is exactly one Black short, the state the rebalancing loop repairs. */
  lemma NilFixupUnbalances<V>(v: V)
    ensures
      var t := Node(Black, 2, v, Node(Black, 1, v, Nil, Nil), Node(Black, 3, v, Nil, Nil));
      var z := Locate(t, 1, []);
      && IsRBTree(t)
      && z.focus.Node? && z.focus.color == Black && z.focus.left.Nil?
      && !Balanced(Plug(z.focus.right, z.path))
      && DoubleBlack(z.focus.right, z.path)
  {
    var t := Node(Black, 2, v, Node(Black, 1, v, Nil, Nil), Node(Black, 3, v, Nil, Nil));
    var one, three := Node(Black, 1, v, Nil, Nil), Node(Black, 3, v, Nil, Nil);
    assert Inorder(one) == [] + [Entry(1, v)] + [] == [Entry(1, v)];
    assert Inorder(three) == [] + [Entry(3, v)] + [] == [Entry(3, v)];
    assert Inorder(t) == [Entry(1, v), Entry(2, v), Entry(3, v)];
    var p := [AsLeft(Black, 2, v, Node(Black, 3, v, Nil, Nil))];
    assert Locate(t, 1, []) == Zip(Node(Black, 1, v, Nil, Nil), p);
    assert Plug(Nil, p) == Node(Black, 2, v, Nil, Node(Black, 3, v, Nil, Nil));
    PathBalancedCons(p[0], [], 1);
    FramesRedOKCons(p[0], []);
  }

  /** Delete on the tree root with an int key: nothing happens when the key is
      absent (Has); otherwise the node holding it (getNode) is unlinked and, when a
      Black node left the tree, the rebalancing loop runs from x. */
  method Remove<V>(root: RB<V>, key: int) returns (r: RB<V>, hangs: bool)
    ensures !InternalLookup(Nil, root, key, NoDir).found ==> r == root && !hangs
    ensures Ordered(root) ==> Inorder(r) == RemoveKey(Inorder(root), key)
    ensures IsRBTree(root) ==> IsRBTree(r) && !hangs
  {
    LookupIsLocate(Nil, root, key, NoDir, []);
    if !InternalLookup(Nil, root, key, NoDir).found {
      AbsentKey(root, key);
      return root, false;
    }
    var z := Locate(root, key, []);
    LocatePlug(root, key, []);
    var x, xp, removed := Unlink(z.focus, z.path);
    if removed == Black {
      r, hangs := RebalanceDelete(x, xp);
    } else {
      r, hangs := Plug(x, xp), false;
    }
    UnlinkEntries(root, key);
  }

  /** Delete exactly as written: the same unlinking, then fixupDelete with its
      early return on a nil x. The entries come out right; the red-black shape
      is only restored when x is not nil (see NilFixupUnbalances). */
  method RemoveAsWritten<V>(root: RB<V>, key: int) returns (r: RB<V>, hangs: bool)
    ensures !InternalLookup(Nil, root, key, NoDir).found ==> r == root && !hangs
    ensures Ordered(root) ==> Inorder(r) == RemoveKey(Inorder(root), key) && Ordered(r)
    ensures IsRBTree(root) ==> !hangs && RedOK(r) && !IsRed(r)
  {
    LookupIsLocate(Nil, root, key, NoDir, []);
    if !InternalLookup(Nil, root, key, NoDir).found {
      AbsentKey(root, key);
      return root, false;
    }
    var z := Locate(root, key, []);
    LocatePlug(root, key, []);
    var x, xp, removed := Unlink(z.focus, z.path);
    if removed == Black {
      r, hangs := FixupDelete(x, xp);
    } else {
      r, hangs := Plug(x, xp), false;
    }
    UnlinkEntries(root, key);
  }

  /** When the descent ends on nil, removing the key changes no entry. */
  lemma AbsentKey<V>(root: RB<V>, key: int)
    requires Locate(root, key, []).focus.Nil?
    ensures Ordered(root) ==> RemoveKey(Inorder(root), key) == Inorder(root)
  {
    if Ordered(root) {
      LocateOrdered(root, key, []);
      RemoveMissing(Inorder(root), key);
    }
  }

  /** Taking the located node out of the in-order sequence of an ordered tree
      leaves exactly the entries RemoveKey keeps. */
  lemma UnlinkEntries<V>(root: RB<V>, key: int)
    requires Locate(root, key, []).focus.Node?
    ensures var z := Locate(root, key, []);
      Ordered(root) ==>
        Before(z.path) + Inorder(z.focus.left) + Inorder(z.focus.right) + After(z.path) ==
        RemoveKey(Inorder(root), key) &&
        StrictlyIncreasing(RemoveKey(Inorder(root), key))
  {
    var z := Locate(root, key, []);
    LocatePlug(root, key, []);
    PlugInorder(z.focus, z.path);
    var bz, l, e, r, az := Before(z.path), Inorder(z.focus.left), Entry(key, z.focus.payload),
      Inorder(z.focus.right), After(z.path);
    assert Inorder(z.focus) == l + [e] + r;
    Regroup(bz, l, [e], r, az);
    Assoc(bz + l, r, az);
    if Ordered(root) {
      RemoveAtEntry(bz + l, e, r + az);
      RemoveIncreasing(Inorder(root), key);
    }
  }
}
