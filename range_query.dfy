/** The interval query over int keys: find a split node whose key lies in
    [x1, x2] by a left-first descent, then walk down its left and its right
    subtree, collecting the key of one side subtree's root at each step, and
    finally the keys of the two leaves the walks end at, when in range. */
module RangeQuery {
  import opened RBTypes
  import opened Lookup

  predicate InRange(k: int, x1: int, x2: int)
  {
    k >= x1 && k <= x2
  }

  /** isLeaf: no children. Called on nil it would panic. */
  predicate IsLeaf<V>(n: RB<V>)
    requires n.Node?
  {
    n.right.Nil? && n.left.Nil?
  }

  /** s occurs in t (t itself included). */
  ghost predicate IsSubtree<V>(s: RB<V>, t: RB<V>)
    decreases t
  {
    s == t || (t.Node? && (IsSubtree(s, t.left) || IsSubtree(s, t.right)))
  }

  /** getSplitNode: the node itself when its key is in range, otherwise the
      split node of its Left child if it has one, else of its Right child if it
      has one, else nil. The descent never compares against the range. */
  function SplitNode<V>(n: RB<V>, x1: int, x2: int): (s: RB<V>)
    requires n.Node?
    ensures s.Node? ==> InRange(s.key, x1, x2) && IsSubtree(s, n)
    ensures InRange(n.key, x1, x2) ==> s == n
    ensures !InRange(n.key, x1, x2) && n.left.Nil? && n.right.Nil? ==> s.Nil?
    decreases n
  {
    if InRange(n.key, x1, x2) then n
    else if n.left.Node? then SplitNode(n.left, x1, x2)
    else if n.right.Node? then SplitNode(n.right, x1, x2)
    else Nil
  }

  /** The nodes a walk appends and the leaf it stops at. */
  datatype Walk<V> = Walk(appended: seq<RB<V>>, last: RB<V>)

  /** The "going left" loop never dereferences nil from c on: every node it
      passes has the child it reads. */
  predicate LeftSafe<V>(c: RB<V>, x1: int)
    decreases c
  {
    c.Node? &&
    (IsLeaf(c) ||
     if x1 <= c.key then c.right.Node? && LeftSafe(c.left, x1) else LeftSafe(c.right, x1))
  }

  /** The "going left" loop from c: where x1 <= key, the Right child is appended
      and the walk goes Left, otherwise it goes Right; it stops at a leaf. */
  function LeftWalk<V>(c: RB<V>, x1: int): (w: Walk<V>)
    requires LeftSafe(c, x1)
    ensures w.last.Node? && IsLeaf(w.last)
    ensures forall i :: 0 <= i < |w.appended| ==> w.appended[i].Node?
    decreases c
  {
    if IsLeaf(c) then Walk([], c)
    else if x1 <= c.key then
      var w := LeftWalk(c.left, x1);
      Walk([c.right] + w.appended, w.last)
    else LeftWalk(c.right, x1)
  }

  /** The "going right" loop never dereferences nil from c on. */
  predicate RightSafe<V>(c: RB<V>, x2: int)
    decreases c
  {
    c.Node? &&
    (IsLeaf(c) ||
     if c.key <= x2 then c.left.Node? && RightSafe(c.right, x2) else RightSafe(c.left, x2))
  }

  /** The "going right" loop from c, the mirror image of LeftWalk. */
  function RightWalk<V>(c: RB<V>, x2: int): (w: Walk<V>)
    requires RightSafe(c, x2)
    ensures w.last.Node? && IsLeaf(w.last)
    ensures forall i :: 0 <= i < |w.appended| ==> w.appended[i].Node?
    decreases c
  {
    if IsLeaf(c) then Walk([], c)
    else if c.key <= x2 then
      var w := RightWalk(c.right, x2);
      Walk([c.left] + w.appended, w.last)
    else RightWalk(c.left, x2)
  }

  /** getValuesInRange runs without a nil dereference: the root exists and,
      when there is a split node, it is not a leaf and both walks are safe. */
  predicate RangeSafe<V>(root: RB<V>, x1: int, x2: int)
  {
    root.Node? &&
    var vs := SplitNode(root, x1, x2);
    vs.Nil? || (!IsLeaf(vs) && LeftSafe(vs.left, x1) && RightSafe(vs.right, x2))
  }

  /** The leaf a walk ends at, when its key is in range. */
  function LastIfInRange<V>(w: Walk<V>, x1: int, x2: int): seq<RB<V>>
    requires w.last.Node?
  {
    if InRange(w.last.key, x1, x2) then [w.last] else []
  }

  /** The nodes getValuesInRange collects, in order. */
  function RangeNodes<V>(root: RB<V>, x1: int, x2: int): (ns: seq<RB<V>>)
    requires RangeSafe(root, x1, x2)
    ensures forall i :: 0 <= i < |ns| ==> ns[i].Node?
  {
    var vs := SplitNode(root, x1, x2);
    if vs.Nil? then []
    else
      var l, r := LeftWalk(vs.left, x1), RightWalk(vs.right, x2);
      l.appended + LastIfInRange(l, x1, x2) + r.appended + LastIfInRange(r, x1, x2)
  }

  function NodeKeys<V>(ns: seq<RB<V>>): (ks: seq<int>)
    requires forall i :: 0 <= i < |ns| ==> ns[i].Node?
    ensures |ks| == |ns| && forall i :: 0 <= i < |ns| ==> ks[i] == ns[i].key
  {
    if ns == [] then [] else [ns[0].key] + NodeKeys(ns[1..])
  }

  /** The keys getValuesInRange returns. */
  function RangeKeys<V>(root: RB<V>, x1: int, x2: int): seq<int>
    requires RangeSafe(root, x1, x2)
  {
    NodeKeys(RangeNodes(root, x1, x2))
  }

  /** The "going left" loop of getValuesInRange, from c. */
  method GoLeft<V>(c: RB<V>, x1: int) returns (appended: seq<RB<V>>, last: RB<V>)
    requires LeftSafe(c, x1)
    ensures Walk(appended, last) == LeftWalk(c, x1)
  {
    appended := [];
    var cur := c;
    while !IsLeaf(cur)
      invariant LeftSafe(cur, x1)
      invariant appended + LeftWalk(cur, x1).appended == LeftWalk(c, x1).appended
      invariant LeftWalk(cur, x1).last == LeftWalk(c, x1).last
      decreases cur
    {
      if x1 <= cur.key {
        appended := appended + [cur.right];
        assert appended + LeftWalk(cur.left, x1).appended == LeftWalk(c, x1).appended;
        cur := cur.left;
      } else {
        cur := cur.right;
      }
    }
    last := cur;
  }

  /** The "going right" loop of getValuesInRange, from c. */
  method GoRight<V>(c: RB<V>, x2: int) returns (appended: seq<RB<V>>, last: RB<V>)
    requires RightSafe(c, x2)
    ensures Walk(appended, last) == RightWalk(c, x2)
  {
    appended := [];
    var cur := c;
    while !IsLeaf(cur)
      invariant RightSafe(cur, x2)
      invariant appended + RightWalk(cur, x2).appended == RightWalk(c, x2).appended
      invariant RightWalk(cur, x2).last == RightWalk(c, x2).last
      decreases cur
    {
      if cur.key <= x2 {
        appended := appended + [cur.left];
        assert appended + RightWalk(cur.right, x2).appended == RightWalk(c, x2).appended;
        cur := cur.right;
      } else {
        cur := cur.left;
      }
    }
    last := cur;
  }

  /** getValuesInRange: split node, the two walks, then the keys of the collected nodes. */
  method GetValuesInRange<V>(root: RB<V>, x1: int, x2: int) returns (keys: seq<int>)
    requires RangeSafe(root, x1, x2)
    ensures keys == RangeKeys(root, x1, x2)
    ensures SplitNode(root, x1, x2).Nil? ==> keys == []
  {
    var rangeNodes: seq<RB<V>> := [];
    var vs := SplitNode(root, x1, x2);
    if vs.Nil? {
      return [];
    }
    var cur := vs;
    if IsLeaf(cur) {
      // the walk to the right would then start at Vs.Right, which is nil
      assert false;
    } else {
      cur := cur.left;
    }
    // going left
    var appended;
    appended, cur := GoLeft(cur, x1);
    rangeNodes := rangeNodes + appended;
    if InRange(cur.key, x1, x2) {
      rangeNodes := rangeNodes + [cur];
    }
    // going right
    appended, cur := GoRight(vs.right, x2);
    rangeNodes := rangeNodes + appended;
    if InRange(cur.key, x1, x2) {
      rangeNodes := rangeNodes + [cur];
    }
    assert rangeNodes == RangeNodes(root, x1, x2);

    keys := [];
    for i := 0 to |rangeNodes|
      invariant |keys| == i && forall j :: 0 <= j < i ==> keys[j] == rangeNodes[j].key
    {
      keys := keys + [rangeNodes[i].key];
    }
  }

  /** Keys never decrease in order (the sample tree repeats keys, so the order
      is not strict). */
  ghost predicate Sorted<V>(t: RB<V>)
  {
    forall i, j :: 0 <= i < j < |Inorder(t)| ==> Inorder(t)[i].key <= Inorder(t)[j].key
  }

  lemma SortedNode<V>(t: RB<V>)
    requires t.Node? && Sorted(t)
    ensures Sorted(t.left) && Sorted(t.right)
    ensures forall x :: x in Keys(t.left) ==> x <= t.key
    ensures forall x :: x in Keys(t.right) ==> t.key <= x
  {
    var l, r := Inorder(t.left), Inorder(t.right);
    var s := Inorder(t);
    assert s == l + [Entry(t.key, t.payload)] + r;
    assert forall i :: 0 <= i < |l| ==> s[i] == l[i];
    assert forall i :: 0 <= i < |r| ==> s[|l| + 1 + i] == r[i];
    assert s[|l|].key == t.key;
  }

  /** A subtree holds some of the tree's keys, and in the same order. */
  lemma {:induction false} SubtreeFacts<V>(s: RB<V>, t: RB<V>)
    requires IsSubtree(s, t)
    ensures Keys(s) <= Keys(t)
    ensures Sorted(t) ==> Sorted(s)
    decreases t
  {
    if s != t {
      KeysOfSplit(Inorder(t.left), Entry(t.key, t.payload), Inorder(t.right));
      if Sorted(t) {
        SortedNode(t);
      }
      if IsSubtree(s, t.left) {
        SubtreeFacts(s, t.left);
      } else {
        SubtreeFacts(s, t.right);
      }
    }
  }

  lemma NodeKeys3<V>(t: RB<V>)
    requires t.Node?
    ensures t.key in Keys(t) && Keys(t.left) <= Keys(t) && Keys(t.right) <= Keys(t)
  {
    KeysOfSplit(Inorder(t.left), Entry(t.key, t.payload), Inorder(t.right));
  }

  /** The going-left walk collects keys of c only; on a sorted subtree whose
      keys are at most hi, each collected key lies in [x1, hi]. */
  lemma {:induction false} LeftWalkSound<V>(c: RB<V>, x1: int, hi: int)
    requires LeftSafe(c, x1)
    ensures var w := LeftWalk(c, x1);
      && w.last.key in Keys(c)
      && (forall i :: 0 <= i < |w.appended| ==> w.appended[i].key in Keys(c))
      && (Sorted(c) && (forall x :: x in Keys(c) ==> x <= hi) ==>
            forall i :: 0 <= i < |w.appended| ==> x1 <= w.appended[i].key <= hi)
    decreases c
  {
    NodeKeys3(c);
    if !IsLeaf(c) {
      if Sorted(c) {
        SortedNode(c);
      }
      if x1 <= c.key {
        NodeKeys3(c.right);
        LeftWalkSound(c.left, x1, hi);
        var w := LeftWalk(c.left, x1);
        assert LeftWalk(c, x1).appended == [c.right] + w.appended;
      } else {
        LeftWalkSound(c.right, x1, hi);
      }
    }
  }

  /** The mirror image: each key the going-right walk collects lies in [lo, x2]. */
  lemma {:induction false} RightWalkSound<V>(c: RB<V>, x2: int, lo: int)
    requires RightSafe(c, x2)
    ensures var w := RightWalk(c, x2);
      && w.last.key in Keys(c)
      && (forall i :: 0 <= i < |w.appended| ==> w.appended[i].key in Keys(c))
      && (Sorted(c) && (forall x :: x in Keys(c) ==> lo <= x) ==>
            forall i :: 0 <= i < |w.appended| ==> lo <= w.appended[i].key <= x2)
    decreases c
  {
    NodeKeys3(c);
    if !IsLeaf(c) {
      if Sorted(c) {
        SortedNode(c);
      }
      if c.key <= x2 {
        NodeKeys3(c.left);
        RightWalkSound(c.right, x2, lo);
        var w := RightWalk(c.right, x2);
        assert RightWalk(c, x2).appended == [c.left] + w.appended;
      } else {
        RightWalkSound(c.left, x2, lo);
      }
    }
  }

  /** Every key the query returns is a key of the tree, and on a sorted tree
      it lies in [x1, x2]. */
  lemma RangeSound<V>(root: RB<V>, x1: int, x2: int)
    requires RangeSafe(root, x1, x2)
    ensures forall i :: 0 <= i < |RangeKeys(root, x1, x2)| ==> RangeKeys(root, x1, x2)[i] in Keys(root)
    ensures Sorted(root) ==>
      forall i :: 0 <= i < |RangeKeys(root, x1, x2)| ==> InRange(RangeKeys(root, x1, x2)[i], x1, x2)
  {
    var vs := SplitNode(root, x1, x2);
    if vs.Node? {
      SubtreeFacts(vs, root);
      NodeKeys3(vs);
      if Sorted(root) {
        SortedNode(vs);
      }
      LeftWalkSound(vs.left, x1, vs.key);
      RightWalkSound(vs.right, x2, vs.key);
      var l, r := LeftWalk(vs.left, x1), RightWalk(vs.right, x2);
      var ns := RangeNodes(root, x1, x2);
      var a, b, c := l.appended, LastIfInRange(l, x1, x2), r.appended;
      assert ns == a + b + c + LastIfInRange(r, x1, x2);
      forall i | 0 <= i < |ns|
        ensures ns[i].key in Keys(root)
        ensures Sorted(root) ==> InRange(ns[i].key, x1, x2)
      {
        if i < |a| {
          assert ns[i] == a[i];
        } else if i < |a| + |b| {
          assert ns[i] == l.last;
        } else if i < |a| + |b| + |c| {
          assert ns[i] == c[i - |a| - |b|];
        } else {
          assert ns[i] == r.last;
        }
      }
    }
  }

  /** A node of the sample tree: the zero colour (Red) and a nil payload. */
  function Inner(k: int, l: RB<()>, r: RB<()>): RB<()>
  {
    Node(Red, k, (), l, r)
  }

  function Leaf(k: int): RB<()>
  {
    Inner(k, Nil, Nil)
  }

  /** The sample tree main builds: a search tree whose leaves repeat the keys
      of the inner nodes above them. */
  function Sample(): RB<()>
  {
    var node3, node19 := Inner(3, Leaf(3), Leaf(10)), Inner(19, Leaf(19), Leaf(23));
    var node30, node59 := Inner(30, Leaf(30), Leaf(37)), Inner(59, Leaf(59), Leaf(62));
    var node70, node100 := Inner(70, Leaf(70), Leaf(80)), Inner(100, Leaf(100), Nil);
    var node10, node37 := Inner(10, node3, node19), Inner(37, node30, Leaf(49));
    var node62, node89 := Inner(62, node59, node70), Inner(89, Nil, node100);
    var node23, node80 := Inner(23, node10, node37), Inner(80, node62, node89);
    Inner(49, node23, node80)
  }

  /** The query main runs: [19, 77] on the sample tree gives 37, 23, 19, 59, 70:
      37 and 23 collected going left and its end leaf 19, then 59 and 70
      collected going right; that walk ends at leaf 80, outside the range. */
  lemma SampleQuery()
    ensures RangeSafe(Sample(), 19, 77)
    ensures RangeKeys(Sample(), 19, 77) == [37, 23, 19, 59, 70]
  {
    var t := Sample();
    assert SplitNode(t, 19, 77) == t;
    var l := LeftWalk(t.left, 19);
    assert l == Walk([t.left.right, t.left.left.right.right], t.left.left.right.left);
    var r := RightWalk(t.right, 77);
    assert r == Walk([t.right.left.left, t.right.left.right.left], t.right.left.right.right);
    var ns := RangeNodes(t, 19, 77);
    assert LastIfInRange(l, 19, 77) == [l.last] && LastIfInRange(r, 19, 77) == [];
    assert ns == l.appended + [l.last] + r.appended;
    assert |ns| == 5 && ns[0].key == 37 && ns[1].key == 23 && ns[2].key == 19 &&
      ns[3].key == 59 && ns[4].key == 70;
    var ks := NodeKeys(ns);
    assert ks == [ks[0], ks[1], ks[2], ks[3], ks[4]];
  }

  /** The left-first split search can miss a range entirely: on the sample
      tree, 59 and 62 lie in [59, 62] but sit right of the root, the descent
      only goes left from 49 and finds no split node, and the query returns
      nothing. */
  lemma SampleMissesRightRange()
    ensures Sample().right.left.key == 62 && Sample().right.left.left.key == 59
    ensures RangeSafe(Sample(), 59, 62)
    ensures SplitNode(Sample(), 59, 62).Nil? && RangeKeys(Sample(), 59, 62) == []
  {
    var t := Sample();
    assert SplitNode(t.left.left.left, 59, 62) == Nil;
    assert SplitNode(t, 59, 62) == Nil;
  }
}
