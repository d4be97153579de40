/** The Tree object of the package: a root reference ordered by IntComparator,
    and the public operations that read and change it. */
module RedBlackTree {
  import opened RBTypes
  import opened Mapping
  import opened Zipper
  import opened Lookup
  import opened Rotations
  import opened Insert
  import opened Delete
  import opened KeyValidation
  import opened Visitors

  class Tree<V> {
    var root: RB<V>

    /** NewTree: an empty tree. */
    constructor ()
      ensures root == Nil
    {
      root := Nil;
    }

    /** GetParent: an invalid key or an empty tree finds nothing; otherwise the
        descent from the root reports whether the key is present and, either way,
        the parent of its slot and the side of that slot. */
    function GetParent(key: Key): (r: LookupResult<V>)
      reads this
      requires root.Nil? || Admissible(key)
      ensures MustBeValidKey(key).Some? || root.Nil? ==> r == LookupResult(false, Nil, NoDir)
      ensures r.found ==> key.IntKey? && key.value in Keys(root)
      ensures key.IntKey? && Ordered(root) ==> (r.found <==> key.value in Keys(root))
      ensures !r.found && key.IntKey? && root.Node? ==>
        r.parent.Node? && (r.dir == Left || r.dir == Right) &&
        (r.dir == Left ==> r.parent.left.Nil? && key.value < r.parent.key) &&
        (r.dir == Right ==> r.parent.right.Nil? && r.parent.key < key.value)
    {
      if MustBeValidKey(key).Some? || root.Nil? then LookupResult(false, Nil, NoDir)
      else
        LookupCorrect(root, key.value);
        InternalLookup(Nil, root, key.value, NoDir)
    }

    /** getNode: the node holding the key, reached as the root when it has no
        parent and otherwise as the parent's child on the reported side. */
    function GetNode(key: Key): (r: (bool, RB<V>))
      reads this
      requires root.Nil? || Admissible(key)
      ensures r.0 ==> key.IntKey? && r.1 == Locate(root, key.value, []).focus
      ensures r.0 ==> r.1.Node? && r.1.key == key.value && key.value in Keys(root)
      ensures !r.0 ==> r.1.Nil?
      ensures key.IntKey? && Ordered(root) ==> (r.0 <==> key.value in Keys(root))
    {
      var res := GetParent(key);
      if !res.found then (false, Nil)
      else
        var k := key.value;
        LookupIsLocate(Nil, root, k, NoDir, []);
        LocatePlug(root, k, []);
        if res.parent.Nil? then (true, root)
        else
          // the side is Left or Right whenever there is a parent, and the child
          // there is the node that matched
          (true, if res.dir == Left then res.parent.left else res.parent.right)
    }

    /** Get: the payload stored under the key, nothing for an invalid or absent key. */
    function Get(key: Key): (r: Option<V>)
      reads this
      requires root.Nil? || Admissible(key)
      ensures r.Some? ==> key.IntKey? && key.value in Keys(root)
      ensures Ordered(root) ==> r == (if key.IntKey? then Find(Inorder(root), key.value) else None)
    {
      if MustBeValidKey(key).Some? then None
      else
        var res := GetNode(key);
        if res.0 then
          LocateFind(root, key.value);
          Some(res.1.payload)
        else if key.IntKey? then
          FindKeys(Inorder(root), key.value);
          None
        else None
    }

    /** Has: whether a valid key is present. */
    function Has(key: Key): (b: bool)
      reads this
      requires root.Nil? || Admissible(key)
      ensures b ==> key.IntKey? && key.value in Keys(root)
      ensures Ordered(root) ==> (b <==> key.IntKey? && key.value in Keys(root))
    {
      if MustBeValidKey(key).Some? then false
      // internalLookup of an empty tree finds nothing whatever the key
      else if root.Nil? then false
      else
        LookupCorrect(root, key.value);
        InternalLookup(Nil, root, key.value, NoDir).found
    }

    /** Put: an invalid key is refused with its error and changes nothing;
        otherwise the key is bound to data, overwriting in place when present and
        attaching a new node followed by the put fixup when not. */
    method Put(key: Key, data: V) returns (err: Option<KeyError>)
      modifies this
      requires Admissible(key)
      requires !IsRed(root)
      ensures err == MustBeValidKey(key)
      ensures err.Some? ==> root == old(root)
      ensures err.None? ==> root.Node? && root.color == Black
      ensures err.None? && Ordered(old(root)) ==>
        Inorder(root) == InsertEntry(Inorder(old(root)), key.value, data)
      ensures err.None? && Ordered(old(root)) ==> Ordered(root) && Get(key) == Some(data)
      ensures err.None? && Ordered(old(root)) ==>
        forall k :: k != key.value ==> Find(Inorder(root), k) == Find(Inorder(old(root)), k)
      ensures err.None? && Ordered(old(root)) ==>
        |Inorder(root)| == |Inorder(old(root))| + (if old(Has(key)) then 0 else 1)
      ensures err.None? && old(Has(key)) ==> SameShape(old(root), root)
      ensures err.None? && IsRBTree(old(root)) ==> IsRBTree(root)
    {
      err := MustBeValidKey(key);
      if err.Some? {
        return;
      }
      ghost var s0 := Inorder(root);
      root := PutEntry(root, key.value, data);
      if StrictlyIncreasing(s0) {
        InsertIncreasing(s0, key.value, data);
        InsertLength(s0, key.value, data);
        forall k {
          FindInsert(s0, key.value, data, k);
        }
      }
    }

    /** Delete as written: a no-op for an absent key; otherwise the node is
        unlinked and, when a Black node left the tree, fixupDelete runs, which
        returns at once when the node moved into the vacated slot is nil. The
        entries come out right and no Red node gets a Red child, but the Black
        heights are not always restored (Delete.NilFixupUnbalances). hangs
        reports the state in which the rebalancing loop would never end. */
    method Delete(key: Key) returns (hangs: bool)
      modifies this
      requires root.Nil? || Admissible(key)
      ensures !old(Has(key)) ==> root == old(root) && !hangs
      ensures key.IntKey? && Ordered(old(root)) ==>
        Inorder(root) == RemoveKey(Inorder(old(root)), key.value)
      ensures key.IntKey? && Ordered(old(root)) ==> Ordered(root) && !Has(key)
      ensures key.IntKey? && Ordered(old(root)) ==>
        forall k :: k != key.value ==> Find(Inorder(root), k) == Find(Inorder(old(root)), k)
      ensures key.IntKey? && Ordered(old(root)) ==>
        |Inorder(root)| == |Inorder(old(root))| - (if old(Has(key)) then 1 else 0)
      ensures IsRBTree(old(root)) ==> !hangs && RedOK(root) && !IsRed(root)
    {
      ghost var s0 := Inorder(root);
      if !Has(key) {
        hangs := false;
        if key.IntKey? && StrictlyIncreasing(s0) {
          RemoveMissing(s0, key.value);
        }
      } else {
        root, hangs := RemoveAsWritten(root, key.value);
      }
      if key.IntKey? && StrictlyIncreasing(s0) {
        RemoveIncreasing(s0, key.value);
        RemoveLength(s0, key.value);
        forall k {
          FindRemove(s0, key.value, k);
        }
      }
    }

    /** Delete with the early return of fixupDelete on a nil x removed: the
        rebalancing loop also runs from a nil x, using its parent, so a
        red-black tree stays red-black. */
    method DeleteRebalanced(key: Key) returns (hangs: bool)
      modifies this
      requires root.Nil? || Admissible(key)
      ensures !old(Has(key)) ==> root == old(root) && !hangs
      ensures key.IntKey? && Ordered(old(root)) ==>
        Inorder(root) == RemoveKey(Inorder(old(root)), key.value)
      ensures key.IntKey? && Ordered(old(root)) ==> Ordered(root) && !Has(key)
      ensures key.IntKey? && Ordered(old(root)) ==>
        forall k :: k != key.value ==> Find(Inorder(root), k) == Find(Inorder(old(root)), k)
      ensures key.IntKey? && Ordered(old(root)) ==>
        |Inorder(root)| == |Inorder(old(root))| - (if old(Has(key)) then 1 else 0)
      ensures IsRBTree(old(root)) ==> IsRBTree(root) && !hangs
    {
      ghost var s0 := Inorder(root);
      if !Has(key) {
        hangs := false;
        if key.IntKey? && StrictlyIncreasing(s0) {
          RemoveMissing(s0, key.value);
        }
      } else {
        root, hangs := Remove(root, key.value);
      }
      if key.IntKey? && StrictlyIncreasing(s0) {
        RemoveIncreasing(s0, key.value);
        RemoveLength(s0, key.value);
        forall k {
          FindRemove(s0, key.value, k);
        }
      }
    }

    /** Walk with a countingVisitor. */
    method WalkCounting(visitor: CountingVisitor)
      modifies visitor
      ensures visitor.count == old(visitor.count) + |Inorder(root)|
    {
      visitor.Visit(root);
    }

    /** Walk with an InorderVisitor. */
    method WalkInorder(visitor: InorderVisitor)
      modifies visitor
      ensures visitor.buffer == old(visitor.buffer) + Ser(root)
    {
      visitor.Visit(root);
    }

    /** Size: the number of entries, counted by a fresh countingVisitor. */
    method Size() returns (n: nat)
      ensures n == |Inorder(root)|
    {
      var visitor := new CountingVisitor();
      WalkCounting(visitor);
      n := visitor.count;
    }

    /** RotateLeft of the node at address at: a no-op when that node or its
        right child is nil; the entries in order never change. */
    method RotateLeft(at: seq<Step>)
      modifies this
      ensures root == RotateLeftAt(old(root), at)
      ensures Inorder(root) == Inorder(old(root))
      ensures old(root).Node? && at != [] ==>
        root.Node? && root.key == old(root).key && root.color == old(root).color
      ensures old(root).Node? && old(root).right.Node? && at == [] ==> root.key == old(root).right.key
    {
      RotateAtInorder(root, at);
      if root.Node? {
        RotateAtRoot(root, at);
      }
      root := RotateLeftAt(root, at);
    }

    /** RotateRight of the node at address at; it undoes a RotateLeft there. */
    method RotateRight(at: seq<Step>)
      modifies this
      ensures root == RotateRightAt(old(root), at)
      ensures Inorder(root) == Inorder(old(root))
      ensures old(root).Node? && at != [] ==>
        root.Node? && root.key == old(root).key && root.color == old(root).color
      ensures old(root).Node? && old(root).left.Node? && at == [] ==> root.key == old(root).left.key
    {
      RotateAtInorder(root, at);
      if root.Node? {
        RotateAtRoot(root, at);
      }
      root := RotateRightAt(root, at);
    }
  }

  /** The node the descent stops on carries the payload the entry sequence binds
      to the key, and a descent that stops on nil means the key is unbound. */
  lemma LocateFind<V>(t: RB<V>, key: int)
    ensures Ordered(t) && Locate(t, key, []).focus.Node? ==> Find(Inorder(t), key) == Some(Locate(t, key, []).focus.payload)
    ensures Ordered(t) && Locate(t, key, []).focus.Nil? ==> Find(Inorder(t), key) == None
  {
    if !Ordered(t) {
      return;
    }
    var z := Locate(t, key, []);
    LocatePlug(t, key, []);
    LocateOrdered(t, key, []);
    FindKeys(Inorder(t), key);
    if z.focus.Node? {
      var e := Entry(key, z.focus.payload);
      var a := Before(z.path) + Inorder(z.focus.left);
      var b := Inorder(z.focus.right) + After(z.path);
      PlugInorder(z.focus, z.path);
      Regroup(Before(z.path), Inorder(z.focus.left), [e], Inorder(z.focus.right), After(z.path));
      assert Inorder(t) == a + [e] + b;
      FindAtEntry(a, e, b);
    }
  }
}
