/** Comparator-driven descent: internalLookup as the source writes it
    (returning the parent and the direction of the slot), and the same
    descent keeping the whole path, which the mutating operations use. */
module Lookup {
  import opened RBTypes
  import opened Zipper

  datatype LookupResult<V> = LookupResult(found: bool, parent: RB<V>, dir: Direction)

  /** internalLookup: descend from node, remembering its parent and the direction taken. */
  function InternalLookup<V>(parent: RB<V>, node: RB<V>, key: int, dir: Direction): LookupResult<V>
    decreases node
  {
    if node.Nil? then LookupResult(false, parent, dir)
    else if IntComparator(key, node.key) == 0 then LookupResult(true, parent, dir)
    else if IntComparator(key, node.key) < 0 then InternalLookup(node, node.left, key, Left)
    else InternalLookup(node, node.right, key, Right)
  }

  /** The same descent, keeping the frames of every node passed. */
  function Locate<V>(t: RB<V>, key: int, p: seq<Frame<V>>): Zip<V>
    decreases t
  {
    if t.Nil? || key == t.key then Zip(t, p)
    else if key < t.key then Locate(t.left, key, [AsLeft(t.color, t.key, t.payload, t.right)] + p)
    else Locate(t.right, key, [AsRight(t.color, t.key, t.payload, t.left)] + p)
  }

  function DirOf<V>(f: Frame<V>): Direction
  {
    if f.AsLeft? then Left else Right
  }

  /** Locate only moves the focus: the tree it describes is unchanged, and the
      focus is either nil or the node holding the key. */
  lemma {:induction false} LocatePlug<V>(t: RB<V>, key: int, p: seq<Frame<V>>)
    ensures Plug(Locate(t, key, p).focus, Locate(t, key, p).path) == Plug(t, p)
    ensures Locate(t, key, p).focus.Nil? || Locate(t, key, p).focus.key == key
    decreases t
  {
    if t.Node? && key < t.key {
      LocatePlug(t.left, key, [AsLeft(t.color, t.key, t.payload, t.right)] + p);
      assert ([AsLeft(t.color, t.key, t.payload, t.right)] + p)[1..] == p;
    } else if t.Node? && key > t.key {
      LocatePlug(t.right, key, [AsRight(t.color, t.key, t.payload, t.left)] + p);
      assert ([AsRight(t.color, t.key, t.payload, t.left)] + p)[1..] == p;
    }
  }

  lemma AllAboveJoin<V>(a: seq<Entry<V>>, b: seq<Entry<V>>, k: int)
    requires AllAbove(a, k) && AllAbove(b, k)
    ensures AllAbove(a + b, k)
  {
    assert forall i :: 0 <= i < |a + b| ==> (a + b)[i] == if i < |a| then a[i] else b[i - |a|];
  }

  lemma AllBelowJoin<V>(a: seq<Entry<V>>, b: seq<Entry<V>>, k: int)
    requires AllBelow(a, k) && AllBelow(b, k)
    ensures AllBelow(a + b, k)
  {
    assert forall i :: 0 <= i < |a + b| ==> (a + b)[i] == if i < |a| then a[i] else b[i - |a|];
  }

  lemma AllAboveMono<V>(a: seq<Entry<V>>, k: int, k': int)
    requires AllAbove(a, k) && k' <= k
    ensures AllAbove(a, k')
  {
  }

  lemma AllBelowMono<V>(a: seq<Entry<V>>, k: int, k': int)
    requires AllBelow(a, k) && k <= k'
    ensures AllBelow(a, k')
  {
  }

  /** Keys entirely above (below) key do not include it. */
  lemma NotInAbove<V>(a: seq<Entry<V>>, k: int)
    requires AllAbove(a, k) || AllBelow(a, k)
    ensures k !in KeysOf(a)
  {
    forall i | 0 <= i < |a| ensures a[i].key != k { }
  }

  /** In an ordered tree the descent ends on a node exactly when the key is present;
      when it ends on nil, every entry before the slot is below the key and every
      entry after it is above: the slot is the BST insertion point. */
  lemma {:induction false} LocateOrdered<V>(t: RB<V>, key: int, p: seq<Frame<V>>)
    requires Ordered(t)
    requires AllBelow(Before(p), key) && AllAbove(After(p), key)
    ensures Locate(t, key, p).focus.Node? <==> key in Keys(t)
    ensures Locate(t, key, p).focus.Nil? ==>
      AllBelow(Before(Locate(t, key, p).path), key) && AllAbove(After(Locate(t, key, p).path), key)
    decreases t
  {
    if t.Node? {
      var c, k, v, l, r := t.color, t.key, t.payload, t.left, t.right;
      OrderedNode(c, k, v, l, r);
      KeysOfSplit(Inorder(l), Entry(k, v), Inorder(r));
      if key < k {
        var q := [AsLeft(c, k, v, r)] + p;
        assert AllBelow(Before(q), key) && AllAbove(After(q), key) by {
          assert q[0] == AsLeft(c, k, v, r) && q[1..] == p;
          assert Before(q) == Before(p) + [];
          assert After(q) == [Entry(k, v)] + Inorder(r) + After(p);
          AllAboveMono(Inorder(r), k, key);
          assert AllAbove([Entry(k, v)], key);
          AllAboveJoin([Entry(k, v)], Inorder(r), key);
          AllAboveJoin([Entry(k, v)] + Inorder(r), After(p), key);
        }
        LocateOrdered(l, key, q);
        assert key !in KeysOf(Inorder(r)) by {
          AllAboveMono(Inorder(r), k, key);
          NotInAbove(Inorder(r), key);
        }
      } else if key > k {
        var q := [AsRight(c, k, v, l)] + p;
        assert AllBelow(Before(q), key) && AllAbove(After(q), key) by {
          assert q[0] == AsRight(c, k, v, l) && q[1..] == p;
          assert Before(q) == Before(p) + (Inorder(l) + [Entry(k, v)]);
          assert After(q) == [] + After(p);
          AllBelowMono(Inorder(l), k, key);
          assert AllBelow([Entry(k, v)], key);
          AllBelowJoin(Inorder(l), [Entry(k, v)], key);
          AllBelowJoin(Before(p), Inorder(l) + [Entry(k, v)], key);
        }
        LocateOrdered(r, key, q);
        assert key !in KeysOf(Inorder(l)) by {
          AllBelowMono(Inorder(l), k, key);
          NotInAbove(Inorder(l), key);
        }
      }
    }
  }

  lemma KeysOfSplit<V>(a: seq<Entry<V>>, e: Entry<V>, b: seq<Entry<V>>)
    ensures KeysOf(a + [e] + b) == KeysOf(a) + {e.key} + KeysOf(b)
  {
    var s := a + [e] + b;
    forall x | x in KeysOf(s) ensures x in KeysOf(a) + {e.key} + KeysOf(b) {
      var i :| 0 <= i < |s| && s[i].key == x;
      if i < |a| { assert s[i] == a[i]; }
      else if i > |a| { assert s[i] == b[i - |a| - 1]; }
    }
    forall x | x in KeysOf(a) + {e.key} + KeysOf(b) ensures x in KeysOf(s) {
      if x in KeysOf(a) {
        var i :| 0 <= i < |a| && a[i].key == x;
        assert s[i] == a[i];
      } else if x in KeysOf(b) {
        var i :| 0 <= i < |b| && b[i].key == x;
        assert s[|a| + 1 + i] == b[i];
      } else {
        assert s[|a|] == e;
      }
    }
  }

  /** internalLookup reports exactly what Locate finds: found iff the focus is a
      node, and the parent/direction of the focus slot (nil and NoDir at the root). */
  lemma {:induction false} LookupIsLocate<V>(parent: RB<V>, t: RB<V>, key: int, dir: Direction, p: seq<Frame<V>>)
    requires p == [] ==> parent == Nil && dir == NoDir
    requires p != [] ==> parent == Fill(p[0], t) && dir == DirOf(p[0])
    ensures InternalLookup(parent, t, key, dir).found == Locate(t, key, p).focus.Node?
    ensures Locate(t, key, p).path == [] ==>
      InternalLookup(parent, t, key, dir).parent == Nil && InternalLookup(parent, t, key, dir).dir == NoDir
    ensures Locate(t, key, p).path != [] ==>
      var z := Locate(t, key, p);
      InternalLookup(parent, t, key, dir).parent == Fill(z.path[0], z.focus) &&
      InternalLookup(parent, t, key, dir).dir == DirOf(z.path[0])
    decreases t
  {
    if t.Node? && key < t.key {
      LookupIsLocate(t, t.left, key, Left, [AsLeft(t.color, t.key, t.payload, t.right)] + p);
    } else if t.Node? && key > t.key {
      LookupIsLocate(t, t.right, key, Right, [AsRight(t.color, t.key, t.payload, t.left)] + p);
    }
  }

  /** Lookup from the root: found iff the key is in an ordered tree; when not
      found in a non-empty tree, the parent is a node whose child in direction
      dir is nil and lies on the key's side of the parent's key. An empty tree
      gives (false, nil, NoDir). */
  lemma LookupCorrect<V>(root: RB<V>, key: int)
    ensures var r := InternalLookup(Nil, root, key, NoDir);
      && (r.found ==> key in Keys(root))
      && (Ordered(root) ==> (r.found <==> key in Keys(root)))
      && (root.Nil? ==> r == LookupResult(false, Nil, NoDir))
      && (!r.found && root.Node? ==>
            r.parent.Node? && (r.dir == Left || r.dir == Right) &&
            (r.dir == Left ==> r.parent.left.Nil? && key < r.parent.key) &&
            (r.dir == Right ==> r.parent.right.Nil? && r.parent.key < key))
  {
    var z := Locate(root, key, []);
    LookupIsLocate(Nil, root, key, NoDir, []);
    LocatePlug(root, key, []);
    LocateKeys(root, key, []);
    if Ordered(root) {
      LocateOrdered(root, key, []);
    }
    if root.Node? {
      LocateSide(root, key, []);
    }
  }

  /** A node found by Locate belongs to the tree. */
  lemma {:induction false} LocateKeys<V>(t: RB<V>, key: int, p: seq<Frame<V>>)
    ensures Locate(t, key, p).focus.Node? ==> key in Keys(t)
    decreases t
  {
    if t.Node? {
      KeysOfSplit(Inorder(t.left), Entry(t.key, t.payload), Inorder(t.right));
      if key < t.key {
        LocateKeys(t.left, key, [AsLeft(t.color, t.key, t.payload, t.right)] + p);
      } else if key > t.key {
        LocateKeys(t.right, key, [AsRight(t.color, t.key, t.payload, t.left)] + p);
      }
    }
  }

  /** When Locate stops at nil below some node, the last frame sends the key to the correct side. */
  lemma {:induction false} LocateSide<V>(t: RB<V>, key: int, p: seq<Frame<V>>)
    requires t.Node?
    ensures var z := Locate(t, key, p);
      z.focus.Nil? ==>
        (|z.path| > |p| &&
         (z.path[0].AsLeft? ==> key < z.path[0].key) && (z.path[0].AsRight? ==> z.path[0].key < key))
    decreases t
  {
    if key < t.key && t.left.Node? {
      LocateSide(t.left, key, [AsLeft(t.color, t.key, t.payload, t.right)] + p);
    } else if key > t.key && t.right.Node? {
      LocateSide(t.right, key, [AsRight(t.color, t.key, t.payload, t.left)] + p);
    }
  }
}
