/** Values of the red-black tree engine: colours, directions, the integer
    comparator, the node datatype and the invariants a red-black tree keeps. */
module RBTypes {

  datatype Option<T> = None | Some(value: T)

  /** Node colour. Red is the zero value, so a freshly allocated node is Red. */
  datatype Color = Red | Black

  function ColorString(c: Color): (s: string)
    ensures s == "Black" <==> c == Black
    ensures s == "Red" <==> c == Red
  {
    match c
    case Black => "Black"
    case Red => "Red"
  }

  /** A direction is a byte; only three of its values are named. */
  newtype Direction = b: int | 0 <= b < 256

  const Left: Direction := 1
  const Right: Direction := 2
  const NoDir: Direction := 3

  function DirectionString(d: Direction): (s: string)
    ensures d == Left <==> s == "left"
    ensures d == Right <==> s == "right"
    ensures d == NoDir <==> s == "center"
    ensures d != Left && d != Right && d != NoDir <==> s == "not recognized"
  {
    if d == Left then "left"
    else if d == Right then "right"
    else if d == NoDir then "center"
    else "not recognized"
  }

  /** The default comparator: the sign of o1 - o2 as -1, 0 or 1. */
  function IntComparator(o1: int, o2: int): (r: int)
    ensures r == -1 || r == 0 || r == 1
    ensures r < 0 <==> o1 < o2
    ensures r == 0 <==> o1 == o2
    ensures r > 0 <==> o1 > o2
  {
    if o1 > o2 then 1
    else if o1 < o2 then -1
    else 0
  }

  /** A tree (or subtree) value; Nil is the nil pointer. */
  datatype RB<V> = Nil | Node(color: Color, key: int, payload: V, left: RB<V>, right: RB<V>)

  /** One key/payload pair of the mapping. */
  datatype Entry<V> = Entry(key: int, payload: V)

  /** The in-order sequence of entries: the mapping the tree represents, in tree order. */
  function Inorder<V>(t: RB<V>): seq<Entry<V>>
  {
    match t
    case Nil => []
    case Node(_, k, v, l, r) => Inorder(l) + [Entry(k, v)] + Inorder(r)
  }

  function KeysOf<V>(s: seq<Entry<V>>): set<int>
  {
    set i | 0 <= i < |s| :: s[i].key
  }

  function Keys<V>(t: RB<V>): set<int>
  {
    KeysOf(Inorder(t))
  }

  ghost predicate StrictlyIncreasing<V>(s: seq<Entry<V>>)
  {
    forall i, j :: 0 <= i < j < |s| ==> s[i].key < s[j].key
  }

  /** BST order: the in-order keys are strictly increasing. */
  ghost predicate Ordered<V>(t: RB<V>)
  {
    StrictlyIncreasing(Inorder(t))
  }

  /** The payload of the first entry with key k. */
  function Find<V>(s: seq<Entry<V>>, k: int): Option<V>
  {
    if s == [] then None
    else if s[0].key == k then Some(s[0].payload)
    else Find(s[1..], k)
  }

  /** A nil child counts as Black. */
  predicate IsRed<V>(t: RB<V>)
  {
    t.Node? && t.color == Red
  }

  /** Number of Black nodes on the leftmost path (nil counts 0). */
  function BH<V>(t: RB<V>): nat
  {
    match t
    case Nil => 0
    case Node(c, _, _, l, _) => BH(l) + (if c == Black then 1 else 0)
  }

  /** Every path from a node to a nil descendant meets the same number of Black nodes. */
  ghost predicate Balanced<V>(t: RB<V>)
  {
    match t
    case Nil => true
    case Node(_, _, _, l, r) => BH(l) == BH(r) && Balanced(l) && Balanced(r)
  }

  /** No Red node has a Red child. */
  ghost predicate RedOK<V>(t: RB<V>)
  {
    match t
    case Nil => true
    case Node(c, _, _, l, r) =>
      (c == Red ==> !IsRed(l) && !IsRed(r)) && RedOK(l) && RedOK(r)
  }

  /** The four invariants of a red-black tree. */
  ghost predicate IsRBTree<V>(t: RB<V>)
  {
    !IsRed(t) && RedOK(t) && Balanced(t) && Ordered(t)
  }

  function Recolor<V>(t: RB<V>, c: Color): RB<V>
  {
    match t
    case Nil => Nil
    case Node(_, k, v, l, r) => Node(c, k, v, l, r)
  }

  lemma RecolorInorder<V>(t: RB<V>, c: Color)
    ensures Inorder(Recolor(t, c)) == Inorder(t)
  {
  }

  /** Same nodes, colours and keys in the same places; payloads may differ. */
  ghost predicate SameShape<V>(a: RB<V>, b: RB<V>)
  {
    match a
    case Nil => b.Nil?
    case Node(c, k, _, l, r) =>
      b.Node? && b.color == c && b.key == k && SameShape(l, b.left) && SameShape(r, b.right)
  }

  lemma {:induction false} SameShapeRefl<V>(t: RB<V>)
    ensures SameShape(t, t)
  {
    if t.Node? {
      SameShapeRefl(t.left);
      SameShapeRefl(t.right);
    }
  }

  /** Every key of s is below k. */
  ghost predicate AllBelow<V>(s: seq<Entry<V>>, k: int)
  {
    forall i :: 0 <= i < |s| ==> s[i].key < k
  }

  /** Every key of s is above k. */
  ghost predicate AllAbove<V>(s: seq<Entry<V>>, k: int)
  {
    forall i :: 0 <= i < |s| ==> k < s[i].key
  }

  lemma IncreasingSplit<V>(a: seq<Entry<V>>, e: Entry<V>, b: seq<Entry<V>>)
    requires StrictlyIncreasing(a + [e] + b)
    ensures StrictlyIncreasing(a) && StrictlyIncreasing(b)
    ensures AllBelow(a, e.key) && AllAbove(b, e.key)
  {
    var s := a + [e] + b;
    assert forall i :: 0 <= i < |a| ==> s[i] == a[i];
    assert forall i :: 0 <= i < |b| ==> s[|a| + 1 + i] == b[i];
    assert s[|a|] == e;
  }

  lemma IncreasingJoin<V>(a: seq<Entry<V>>, e: Entry<V>, b: seq<Entry<V>>)
    requires StrictlyIncreasing(a) && StrictlyIncreasing(b)
    requires AllBelow(a, e.key) && AllAbove(b, e.key)
    ensures StrictlyIncreasing(a + [e] + b)
  {
    var s := a + [e] + b;
    forall i, j | 0 <= i < j < |s| ensures s[i].key < s[j].key {
      if j < |a| {
        assert s[i] == a[i] && s[j] == a[j];
      } else if i > |a| {
        assert s[i] == b[i - |a| - 1] && s[j] == b[j - |a| - 1];
      } else if i == |a| {
        assert s[j] == b[j - |a| - 1];
      } else if j == |a| {
        assert s[i] == a[i];
      } else {
        assert s[i] == a[i] && s[j] == b[j - |a| - 1];
      }
    }
  }

  /** BST order at a node: both subtrees ordered, the left below and the right above the key. */
  lemma OrderedNode<V>(c: Color, k: int, v: V, l: RB<V>, r: RB<V>)
    ensures Ordered(Node(c, k, v, l, r)) <==>
      Ordered(l) && Ordered(r) && AllBelow(Inorder(l), k) && AllAbove(Inorder(r), k)
  {
    assert Inorder(Node(c, k, v, l, r)) == Inorder(l) + [Entry(k, v)] + Inorder(r);
    if Ordered(Node(c, k, v, l, r)) {
      IncreasingSplit(Inorder(l), Entry(k, v), Inorder(r));
    }
    if Ordered(l) && Ordered(r) && AllBelow(Inorder(l), k) && AllAbove(Inorder(r), k) {
      IncreasingJoin(Inorder(l), Entry(k, v), Inorder(r));
    }
  }

  /** Regrouping a five-part concatenation around its middle part. */
  lemma Regroup<T>(w: seq<T>, x: seq<T>, m: seq<T>, y: seq<T>, z: seq<T>)
    ensures w + (x + m + y) + z == (w + x) + m + (y + z)
  {
  }

  lemma Assoc<T>(a: seq<T>, b: seq<T>, c: seq<T>)
    ensures a + (b + c) == (a + b) + c
  {
  }
}
