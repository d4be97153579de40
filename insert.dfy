/** fixupPut: the recolour/rotate loop run after a Red node is attached
    (RB-INSERT-FIXUP of Cormen et al., Introduction to Algorithms, ch. 13).
    z is the focus of a zipper; z.parent is path[0], the grandparent path[1]. */
module Insert {
  import opened RBTypes
  import opened Mapping
  import opened Zipper
  import opened Lookup
  import opened Rotations

  /** What the fixup loop keeps when it starts from a red-black tree whose only
      flaw is the Red-Red edge between z and its parent. */
  ghost predicate Pending<V>(z: RB<V>, p: seq<Frame<V>>)
  {
    RedOK(z) && Balanced(z) && PathBalanced(p, BH(z)) && FramesRedOK(p)
  }

  method FixupPut<V>(z0: RB<V>, p0: seq<Frame<V>>) returns (root: RB<V>)
    requires z0.Node? && z0.color == Red
    requires p0 != [] ==> Last(p0).color == Black
    ensures Inorder(root) == Inorder(Plug(z0, p0))
    ensures root.Node? && root.color == Black
    ensures Pending(z0, p0) ==> RedOK(root) && Balanced(root)
  {
    ghost var rb := Pending(z0, p0);
    var z, p := z0, p0;
    while p != [] && p[0].color == Red
      invariant z.Node? && z.color == Red
      invariant p != [] ==> Last(p).color == Black
      invariant Inorder(Plug(z, p)) == Inorder(Plug(z0, p0))
      invariant rb ==> Pending(z, p)
      decreases |p|
    {
      // z.parent is Red, hence not the root: the grandparent exists
      assert |p| >= 2;
      if p[1].AsLeft? {
        z, p := FixupPutLeft(z, p);
      } else {
        z, p := FixupPutRight(z, p);
      }
    }
    var top := Plug(z, p);
    PlugRoot(z, p);
    if rb {
      PlugBalanced(z, p);
      PlugRedOK(z, p);
    }
    // t.Root.color = BLACK
    root := Recolor(top, Black);
  }

  /** One pass of the fixupPut loop when z's parent is the Left child of the
      grandparent: case 1 recolours and moves z two levels up; cases 2 and 3
      rotate and end the loop. */
  method FixupPutLeft<V>(z0: RB<V>, p0: seq<Frame<V>>) returns (z: RB<V>, p: seq<Frame<V>>)
    requires z0.Node? && z0.color == Red
    requires |p0| >= 2 && p0[0].color == Red && p0[1].AsLeft?
    requires Last(p0).color == Black
    ensures z.Node? && z.color == Red && |p| < |p0|
    ensures p != [] ==> Last(p).color == Black
    ensures Inorder(Plug(z, p)) == Inorder(Plug(z0, p0))
    ensures Pending(z0, p0) ==> Pending(z, p)
  {
    ghost var rb := Pending(z0, p0);
    z, p := z0, p0;
    ghost var z1 := z;
    var parent, grandparent, rest := p[0], p[1], p[2..];
    assert p == [parent] + ([grandparent] + rest) && p == [parent, grandparent] + rest;
    PlugCons(z, parent, [grandparent] + rest);
    PlugCons(Fill(parent, z), grandparent, rest);
    // the subtree rooted at the grandparent, before and after this pass
    ghost var local := Fill(grandparent, Fill(parent, z));
    ghost var local': RB<V>;
    // z.parent is the grandparent's Left child; y is the uncle
    var y := grandparent.sibling;
    if IsRed(y) {
      // case 1: parent and uncle Black, grandparent Red, z moves to the grandparent
      PaintInorder(parent, Black, z);
      z := Node(Red, grandparent.key, grandparent.payload, Fill(Paint(parent, Black), z), Recolor(y, Black));
      p := rest;
      local' := z;
      if rb { Case1(z1, parent, grandparent, p); }
    } else {
      var q := p;
      if parent.AsRight? {
        // case 2: z := z.parent; RotateLeft(z)
        var r := RotateLeftTree(Fill(parent, z));
        z, q := r.left, [AsLeft(r.color, r.key, r.payload, r.right)] + p[1..];
        assert Fill(q[0], z) == r;
      }
      // case 3: z.parent Black, grandparent Red, RotateRight(grandparent)
      PaintInorder(q[0], Black, z);
      var g := RotateRightTree(Node(Red, grandparent.key, grandparent.payload, Fill(Paint(q[0], Black), z), y));
      p := [AsLeft(g.color, g.key, g.payload, g.right)] + rest;
      PlugCons(z, p[0], rest);
      local' := g;
      if rb {
        if parent.AsRight? {
          Case23Left(z1, parent.key, parent.payload, parent.sibling, grandparent.color,
            grandparent.key, grandparent.payload, y, rest);
        } else {
          Case3Left(z1, parent.key, parent.payload, parent.sibling, grandparent.color,
            grandparent.key, grandparent.payload, y, rest);
        }
      }
    }
    assert Plug(z, p) == Plug(local', rest);
    PlugSameInorder(local, local', rest);
  }

  /** One pass of the fixupPut loop when z's parent is the Right child of the
      grandparent: case 1 recolours and moves z two levels up; cases 2 and 3
      rotate and end the loop. */
  method FixupPutRight<V>(z0: RB<V>, p0: seq<Frame<V>>) returns (z: RB<V>, p: seq<Frame<V>>)
    requires z0.Node? && z0.color == Red
    requires |p0| >= 2 && p0[0].color == Red && p0[1].AsRight?
    requires Last(p0).color == Black
    ensures z.Node? && z.color == Red && |p| < |p0|
    ensures p != [] ==> Last(p).color == Black
    ensures Inorder(Plug(z, p)) == Inorder(Plug(z0, p0))
    ensures Pending(z0, p0) ==> Pending(z, p)
  {
    ghost var rb := Pending(z0, p0);
    z, p := z0, p0;
    ghost var z1 := z;
    var parent, grandparent, rest := p[0], p[1], p[2..];
    assert p == [parent] + ([grandparent] + rest) && p == [parent, grandparent] + rest;
    PlugCons(z, parent, [grandparent] + rest);
    PlugCons(Fill(parent, z), grandparent, rest);
    // the subtree rooted at the grandparent, before and after this pass
    ghost var local := Fill(grandparent, Fill(parent, z));
    ghost var local': RB<V>;
    // z.parent is the grandparent's Right child; y is the uncle
    var y := grandparent.sibling;
    if IsRed(y) {
      // case 1
      PaintInorder(parent, Black, z);
      z := Node(Red, grandparent.key, grandparent.payload, Recolor(y, Black), Fill(Paint(parent, Black), z));
      p := rest;
      local' := z;
      if rb { Case1(z1, parent, grandparent, p); }
    } else {
      var q := p;
      if parent.AsLeft? {
        // case 2: z := z.parent; RotateRight(z)
        var r := RotateRightTree(Fill(parent, z));
        z, q := r.right, [AsRight(r.color, r.key, r.payload, r.left)] + p[1..];
        assert Fill(q[0], z) == r;
      }
      // case 3: z.parent Black, grandparent Red, RotateLeft(grandparent)
      PaintInorder(q[0], Black, z);
      var g := RotateLeftTree(Node(Red, grandparent.key, grandparent.payload, y, Fill(Paint(q[0], Black), z)));
      p := [AsRight(g.color, g.key, g.payload, g.left)] + rest;
      PlugCons(z, p[0], rest);
      local' := g;
      if rb {
        if parent.AsLeft? {
          Case23Right(z1, parent.key, parent.payload, parent.sibling, grandparent.color,
            grandparent.key, grandparent.payload, y, rest);
        } else {
          Case3Right(z1, parent.key, parent.payload, parent.sibling, grandparent.color,
            grandparent.key, grandparent.payload, y, rest);
        }
      }
    }
    assert Plug(z, p) == Plug(local', rest);
    PlugSameInorder(local, local', rest);
  }


  /** Case 1 keeps the invariant with z moved up to the (now Red) grandparent. */
  lemma Case1<V>(z: RB<V>, f0: Frame<V>, f1: Frame<V>, q: seq<Frame<V>>)
    requires z.Node? && z.color == Red && Pending(z, [f0, f1] + q)
    requires f0.color == Red && IsRed(f1.sibling)
    ensures
      var g := Fill(AsLeft(Red, f1.key, f1.payload, Recolor(f1.sibling, Black)), Fill(Paint(f0, Black), z));
      var g' := Fill(AsRight(Red, f1.key, f1.payload, Recolor(f1.sibling, Black)), Fill(Paint(f0, Black), z));
      (f1.AsLeft? ==> Pending(Node(Red, f1.key, f1.payload, g.left, g.right), q)) &&
      (f1.AsRight? ==> Pending(Node(Red, f1.key, f1.payload, g'.right, g'.left), q))
  {
    var h := BH(z);
    assert [f0, f1] + q == [f0] + ([f1] + q);
    PathBalancedCons(f0, [f1] + q, h);
    PathBalancedCons(f1, q, h);
    FramesRedOKCons(f0, [f1] + q);
    FramesRedOKCons(f1, q);
  }

  lemma Case3Left<V>(z: RB<V>, pk: int, pv: V, s0: RB<V>, gc: Color, gk: int, gv: V, y: RB<V>, q: seq<Frame<V>>)
    requires z.Node? && z.color == Red && !IsRed(y)
    requires Pending(z, [AsLeft(Red, pk, pv, s0), AsLeft(gc, gk, gv, y)] + q)
    ensures Pending(z, [AsLeft(Black, pk, pv, Node(Red, gk, gv, s0, y))] + q)
  {
    var h := BH(z);
    var f0, f1 := AsLeft(Red, pk, pv, s0), AsLeft(gc, gk, gv, y);
    assert [f0, f1] + q == [f0] + ([f1] + q);
    PathBalancedCons(f0, [f1] + q, h);
    PathBalancedCons(f1, q, h);
    FramesRedOKCons(f0, [f1] + q);
    FramesRedOKCons(f1, q);
    var f := AsLeft(Black, pk, pv, Node(Red, gk, gv, s0, y));
    PathBalancedCons(f, q, h);
    FramesRedOKCons(f, q);
  }

  lemma Case3Right<V>(z: RB<V>, pk: int, pv: V, s0: RB<V>, gc: Color, gk: int, gv: V, y: RB<V>, q: seq<Frame<V>>)
    requires z.Node? && z.color == Red && !IsRed(y)
    requires Pending(z, [AsRight(Red, pk, pv, s0), AsRight(gc, gk, gv, y)] + q)
    ensures Pending(z, [AsRight(Black, pk, pv, Node(Red, gk, gv, y, s0))] + q)
  {
    var h := BH(z);
    var f0, f1 := AsRight(Red, pk, pv, s0), AsRight(gc, gk, gv, y);
    assert [f0, f1] + q == [f0] + ([f1] + q);
    PathBalancedCons(f0, [f1] + q, h);
    PathBalancedCons(f1, q, h);
    FramesRedOKCons(f0, [f1] + q);
    FramesRedOKCons(f1, q);
    var f := AsRight(Black, pk, pv, Node(Red, gk, gv, y, s0));
    PathBalancedCons(f, q, h);
    FramesRedOKCons(f, q);
  }

  lemma Case23Left<V>(z: RB<V>, pk: int, pv: V, s0: RB<V>, gc: Color, gk: int, gv: V, y: RB<V>, q: seq<Frame<V>>)
    requires z.Node? && z.color == Red && !IsRed(y)
    requires Pending(z, [AsRight(Red, pk, pv, s0), AsLeft(gc, gk, gv, y)] + q)
    ensures Pending(Node(Red, pk, pv, s0, z.left), [AsLeft(Black, z.key, z.payload, Node(Red, gk, gv, z.right, y))] + q)
  {
    var h := BH(z);
    var f0, f1 := AsRight(Red, pk, pv, s0), AsLeft(gc, gk, gv, y);
    assert [f0, f1] + q == [f0] + ([f1] + q);
    PathBalancedCons(f0, [f1] + q, h);
    PathBalancedCons(f1, q, h);
    FramesRedOKCons(f0, [f1] + q);
    FramesRedOKCons(f1, q);
    var f := AsLeft(Black, z.key, z.payload, Node(Red, gk, gv, z.right, y));
    PathBalancedCons(f, q, h);
    FramesRedOKCons(f, q);
  }

  lemma Case23Right<V>(z: RB<V>, pk: int, pv: V, s0: RB<V>, gc: Color, gk: int, gv: V, y: RB<V>, q: seq<Frame<V>>)
    requires z.Node? && z.color == Red && !IsRed(y)
    requires Pending(z, [AsLeft(Red, pk, pv, s0), AsRight(gc, gk, gv, y)] + q)
    ensures Pending(Node(Red, pk, pv, z.right, s0), [AsRight(Black, z.key, z.payload, Node(Red, gk, gv, y, z.left))] + q)
  {
    var h := BH(z);
    var f0, f1 := AsLeft(Red, pk, pv, s0), AsRight(gc, gk, gv, y);
    assert [f0, f1] + q == [f0] + ([f1] + q);
    PathBalancedCons(f0, [f1] + q, h);
    PathBalancedCons(f1, q, h);
    FramesRedOKCons(f0, [f1] + q);
    FramesRedOKCons(f1, q);
    var f := AsRight(Black, z.key, z.payload, Node(Red, gk, gv, y, z.left));
    PathBalancedCons(f, q, h);
    FramesRedOKCons(f, q);
  }

  /** Put on the tree root with an int key: an empty tree gets a Black root; a
      key already present has its payload overwritten in place; otherwise a Red
      node goes into the nil slot internalLookup stopped at, and fixupPut runs
      from it. fixupPut reads the grandparent of a Red parent, so the root must
      not be Red. */
  method PutEntry<V>(root: RB<V>, key: int, data: V) returns (r: RB<V>)
    requires !IsRed(root)
    ensures r.Node? && r.color == Black
    ensures InternalLookup(Nil, root, key, NoDir).found ==> SameShape(root, r)
    ensures Ordered(root) ==> Inorder(r) == InsertEntry(Inorder(root), key, data)
    ensures IsRBTree(root) ==> IsRBTree(r)
  {
    if root.Nil? {
      return Node(Black, key, data, Nil, Nil);
    }
    LookupIsLocate(Nil, root, key, NoDir, []);
    var z := Locate(root, key, []);
    if InternalLookup(Nil, root, key, NoDir).found {
      // overwrite the payload of the node holding key
      Overwrite(root, key, data);
      r := Plug(Node(z.focus.color, key, data, z.focus.left, z.focus.right), z.path);
    } else {
      // attach a new Red node and restore the red-black properties
      Attach(root, key, data);
      var n := Node(Red, key, data, Nil, Nil);
      r := FixupPut(n, z.path);
      PlugInorder(n, z.path);
      if Ordered(root) {
        InsertIncreasing(Inorder(root), key, data);
      }
    }
  }

  /** Overwriting the payload of the node holding key keeps shape and colours,
      and replaces exactly that entry. */
  lemma Overwrite<V>(root: RB<V>, key: int, data: V)
    requires root.Node? && !IsRed(root) && Locate(root, key, []).focus.Node?
    ensures
      var z := Locate(root, key, []);
      var r := Plug(Node(z.focus.color, key, data, z.focus.left, z.focus.right), z.path);
      && r.Node? && r.color == Black
      && SameShape(root, r)
      && (Ordered(root) ==> Inorder(r) == InsertEntry(Inorder(root), key, data))
      && (IsRBTree(root) ==> IsRBTree(r))
  {
    LocatePlug(root, key, []);
    var z := Locate(root, key, []);
    ReplacePayloadShape(z.focus, data, z.path);
    if Ordered(root) {
      ReplacePayloadOrder(z.focus, data, z.path);
    }
    if IsRBTree(root) {
      InsertIncreasing(Inorder(root), key, data);
    }
  }

  /** Replacing the payload of the focus t by data changes no colour, key or link. */
  lemma ReplacePayloadShape<V>(t: RB<V>, data: V, p: seq<Frame<V>>)
    requires t.Node?
    ensures
      var root, r := Plug(t, p), Plug(Node(t.color, t.key, data, t.left, t.right), p);
      && root.Node? && r.Node? && r.color == root.color
      && SameShape(root, r)
      && (RedOK(root) && Balanced(root) ==> RedOK(r) && Balanced(r))
  {
    var n := Node(t.color, t.key, data, t.left, t.right);
    var root, r := Plug(t, p), Plug(n, p);
    assert r.color == root.color by {
      PlugRoot(t, p);
      PlugRoot(n, p);
    }
    assert SameShape(root, r) by {
      SameShapeRefl(n.left);
      SameShapeRefl(n.right);
      PlugSameShape(t, n, p);
    }
    PlugBalanced(t, p);
    PlugBalanced(n, p);
    PlugRedOK(t, p);
    PlugRedOK(n, p);
  }

  /** Replacing the payload of the focus t by data replaces exactly its entry. */
  lemma ReplacePayloadOrder<V>(t: RB<V>, data: V, p: seq<Frame<V>>)
    requires t.Node? && Ordered(Plug(t, p))
    ensures Inorder(Plug(Node(t.color, t.key, data, t.left, t.right), p)) ==
      InsertEntry(Inorder(Plug(t, p)), t.key, data)
  {
    var n := Node(t.color, t.key, data, t.left, t.right);
    var a, b := Before(p) + Inorder(n.left), Inorder(n.right) + After(p);
    assert Inorder(Plug(t, p)) == a + [Entry(t.key, t.payload)] + b by {
      PlugInorder(t, p);
      Regroup(Before(p), Inorder(t.left), [Entry(t.key, t.payload)], Inorder(t.right), After(p));
    }
    assert Inorder(Plug(n, p)) == a + [Entry(t.key, data)] + b by {
      PlugInorder(n, p);
      Regroup(Before(p), Inorder(t.left), [Entry(t.key, data)], Inorder(t.right), After(p));
    }
    InsertAtEntry(a, Entry(t.key, t.payload), b, data);
  }

  /** A key absent from a non-empty tree leaves a nil slot below a node; a Red
      node put there is the one flaw fixupPut repairs, and its entry lands where
      InsertEntry puts it. */
  lemma Attach<V>(root: RB<V>, key: int, data: V)
    requires root.Node? && !IsRed(root) && Locate(root, key, []).focus.Nil?
    ensures
      var z := Locate(root, key, []);
      var n := Node(Red, key, data, Nil, Nil);
      && z.path != [] && Last(z.path).color == Black
      && (Ordered(root) ==>
            Before(z.path) + Inorder(n) + After(z.path) == InsertEntry(Inorder(root), key, data))
      && (IsRBTree(root) ==> Pending(n, z.path))
  {
    LocatePlug(root, key, []);
    LocateSide(root, key, []);
    var z := Locate(root, key, []);
    var n := Node(Red, key, data, Nil, Nil);
    PlugRoot(z.focus, z.path);
    PlugInorder(z.focus, z.path);
    var a, b := Before(z.path), After(z.path);
    assert Inorder(root) == a + b;
    assert Inorder(n) == [Entry(key, data)];
    if Ordered(root) {
      LocateOrdered(root, key, []);
      InsertBetween(a, b, key, data);
    }
    if IsRBTree(root) {
      PlugBalanced(z.focus, z.path);
      PlugRedOK(z.focus, z.path);
    }
  }
}
