/** The two visitors a tree accepts through Walk: countingVisitor, which counts
    nodes, and InorderVisitor, which writes the tree's shape and keys as text:
    "." for nil and "(" left key right ")" for a node. */
module Visitors {
  import opened RBTypes

  predicate IsDigit(c: char)
  {
    '0' <= c <= '9'
  }

  function DigitChar(d: nat): (c: char)
    requires d < 10
    ensures IsDigit(c) && c as int - '0' as int == d
  {
    ('0' as int + d) as char
  }

  /** Decimal digits of n, most significant first, with no leading zero. */
  function Digits(n: nat): (s: string)
    ensures |s| >= 1 && forall i :: 0 <= i < |s| ==> IsDigit(s[i])
    decreases n
  {
    if n < 10 then [DigitChar(n)] else Digits(n / 10) + [DigitChar(n % 10)]
  }

  /** fmt's %d of an int: a minus sign for negative numbers, then the digits. */
  function Itoa(i: int): (s: string)
    ensures |s| >= 1 && (s[0] == '-' <==> i < 0)
    ensures forall j :: (if i < 0 then 1 else 0) <= j < |s| ==> IsDigit(s[j])
  {
    if i < 0 then "-" + Digits(-i) else Digits(i)
  }

  /** The number a string of decimal digits denotes. */
  function DigitsValue(s: string): int
  {
    if s == [] then 0 else DigitsValue(s[..|s| - 1]) * 10 + (s[|s| - 1] as int - '0' as int)
  }

  /** Reading back what %d wrote. */
  function ParseInt(s: string): int
  {
    if s != [] && s[0] == '-' then -DigitsValue(s[1..]) else DigitsValue(s)
  }

  lemma {:induction false} DigitsRoundTrip(n: nat)
    ensures DigitsValue(Digits(n)) == n
    decreases n
  {
    if n >= 10 {
      DigitsRoundTrip(n / 10);
      var s := Digits(n);
      assert s[..|s| - 1] == Digits(n / 10);
    }
  }

  lemma ItoaRoundTrip(i: int)
    ensures ParseInt(Itoa(i)) == i
  {
    if i < 0 {
      DigitsRoundTrip(-i);
      assert Itoa(i)[1..] == Digits(-i);
    } else {
      DigitsRoundTrip(i);
    }
  }

  /** The numeral of %d is delimited by the first non-digit after it: two
      numerals followed by texts that start with a non-digit can only be equal
      as a whole when the numbers and the rests are. */
  lemma ItoaPrefix(x: int, y: int, u: string, u': string)
    requires u != [] && u' != [] && !IsDigit(u[0]) && !IsDigit(u'[0])
    requires Itoa(x) + u == Itoa(y) + u'
    ensures x == y && u == u'
  {
    var a, b := Itoa(x), Itoa(y);
    if |a| < |b| {
      NumeralBoundary(x, u, y, u');
      assert false;
    } else if |b| < |a| {
      NumeralBoundary(y, u', x, u);
      assert false;
    }
    assert a == (a + u)[..|a|] && b == (b + u')[..|b|];
    assert u == (a + u)[|a|..] && u' == (b + u')[|b|..];
    ItoaRoundTrip(x);
    ItoaRoundTrip(y);
  }

  /** Where a shorter numeral ends, a longer one still has a digit. */
  lemma NumeralBoundary(x: int, u: string, y: int, u': string)
    requires u != [] && |Itoa(x)| < |Itoa(y)|
    ensures (Itoa(x) + u)[|Itoa(x)|] == u[0]
    ensures IsDigit((Itoa(y) + u')[|Itoa(x)|])
  {
  }

  /** The text InorderVisitor.Visit appends for a subtree. */
  function Ser<V>(t: RB<V>): (s: string)
    ensures |s| >= 1 && s[0] == (if t.Nil? then '.' else '(')
  {
    match t
    case Nil => "."
    case Node(_, k, _, l, r) => "(" + Ser(l) + Itoa(k) + Ser(r) + ")"
  }

  /** Two trees with the same links and the same keys; colours and payloads may differ. */
  ghost predicate SameKeysShape<V>(a: RB<V>, b: RB<V>)
  {
    match a
    case Nil => b.Nil?
    case Node(_, k, _, l, r) =>
      b.Node? && b.key == k && SameKeysShape(l, b.left) && SameKeysShape(r, b.right)
  }

  /** The text of a node followed by more text, grouped from the right. */
  lemma SerNodeThen<V>(t: RB<V>, s: string)
    requires t.Node?
    ensures Ser(t) + s == "(" + (Ser(t.left) + (Itoa(t.key) + (Ser(t.right) + (")" + s))))
  {
    var a, b, c := Ser(t.left), Itoa(t.key), Ser(t.right);
    assert Ser(t) == "(" + a + b + c + ")";
    Assoc("(" + a + b + c, ")", s);
    Assoc("(" + a + b, c, ")" + s);
    Assoc("(" + a, b, c + (")" + s));
    Assoc("(", a, b + (c + (")" + s)));
  }

  /** The text of a subtree is never a proper prefix of the text of another:
      reading it back recovers the subtree's links and keys and where it ends. */
  lemma {:induction false} SerPrefix<V>(a: RB<V>, b: RB<V>, s: string, s': string)
    requires Ser(a) + s == Ser(b) + s'
    ensures SameKeysShape(a, b) && s == s'
    decreases a
  {
    assert (Ser(a) + s)[0] == Ser(a)[0] && (Ser(b) + s')[0] == Ser(b)[0];
    if a.Nil? {
      assert s == (Ser(a) + s)[1..] == (Ser(b) + s')[1..] == s';
    } else {
      var ta := Itoa(a.key) + (Ser(a.right) + (")" + s));
      var tb := Itoa(b.key) + (Ser(b.right) + (")" + s'));
      assert Ser(a.left) + ta == Ser(b.left) + tb by {
        SerNodeThen(a, s);
        SerNodeThen(b, s');
        assert Ser(a.left) + ta == (Ser(a) + s)[1..];
        assert Ser(b.left) + tb == (Ser(b) + s')[1..];
      }
      SerPrefix(a.left, b.left, ta, tb);
      ItoaPrefix(a.key, b.key, Ser(a.right) + (")" + s), Ser(b.right) + (")" + s'));
      SerPrefix(a.right, b.right, ")" + s, ")" + s');
      assert s == (")" + s)[1..] && s' == (")" + s')[1..];
    }
  }

  /** Same links and keys give the same text. */
  lemma {:induction false} SerOfSame<V>(a: RB<V>, b: RB<V>)
    requires SameKeysShape(a, b)
    ensures Ser(a) == Ser(b)
    decreases a
  {
    if a.Node? {
      SerOfSame(a.left, b.left);
      SerOfSame(a.right, b.right);
    }
  }

  /** Two trees write the same text exactly when they have the same links and keys. */
  lemma SerInjective<V>(a: RB<V>, b: RB<V>)
    ensures Ser(a) == Ser(b) <==> SameKeysShape(a, b)
  {
    if Ser(a) == Ser(b) {
      assert Ser(a) + "" == Ser(b) + "";
      SerPrefix(a, b, "", "");
    }
    if SameKeysShape(a, b) {
      SerOfSame(a, b);
    }
  }

  lemma SerNodeAfter<V>(b: string, t: RB<V>)
    requires t.Node?
    ensures b + "(" + Ser(t.left) + Itoa(t.key) + Ser(t.right) + ")" == b + Ser(t)
  {
  }

  /** How many times c occurs in s. */
  function Occurrences(s: string, c: char): nat
  {
    if s == [] then 0 else (if s[0] == c then 1 else 0) + Occurrences(s[1..], c)
  }

  lemma {:induction false} OccurrencesAppend(a: string, b: string, c: char)
    ensures Occurrences(a + b, c) == Occurrences(a, c) + Occurrences(b, c)
  {
    if a != [] {
      assert (a + b)[1..] == a[1..] + b;
      OccurrencesAppend(a[1..], b, c);
    } else {
      assert a + b == b;
    }
  }

  lemma {:induction false} OccurrencesNone(s: string, c: char)
    requires forall i :: 0 <= i < |s| ==> s[i] != c
    ensures Occurrences(s, c) == 0
  {
    if s != [] {
      OccurrencesNone(s[1..], c);
    }
  }

  /** The text of a tree marks every nil link with a dot, and a tree with n
      nodes has n + 1 nil links: the two visitors agree on the node count. */
  lemma {:induction false} SerCountsNodes<V>(t: RB<V>)
    ensures Occurrences(Ser(t), '.') == |Inorder(t)| + 1
    decreases t
  {
    if t.Node? {
      SerCountsNodes(t.left);
      SerCountsNodes(t.right);
      OccurrencesNone(Itoa(t.key), '.');
      OccurrencesNone("(", '.');
      OccurrencesNone(")", '.');
      OccurrencesAppend("(", Ser(t.left), '.');
      OccurrencesAppend("(" + Ser(t.left), Itoa(t.key), '.');
      OccurrencesAppend("(" + Ser(t.left) + Itoa(t.key), Ser(t.right), '.');
      OccurrencesAppend("(" + Ser(t.left) + Itoa(t.key) + Ser(t.right), ")", '.');
    } else {
      assert Occurrences(".", '.') == 1 + Occurrences("", '.');
    }
  }

  /** countingVisitor. */
  class CountingVisitor {
    var count: nat

    constructor ()
      ensures count == 0
    {
      count := 0;
    }

    /** Visits the subtree in order, adding one per node. */
    method Visit<V>(node: RB<V>)
      modifies this
      ensures count == old(count) + |Inorder(node)|
      decreases node
    {
      if node.Nil? {
        return;
      }
      Visit(node.left);
      count := count + 1;
      Visit(node.right);
    }
  }

  /** InorderVisitor: keeps the text written so far. */
  class InorderVisitor {
    var buffer: string

    constructor ()
      ensures buffer == ""
    {
      buffer := "";
    }

    function String(): string
      reads this
    {
      buffer
    }

    /** Two visitors are equal when the other one exists and holds the same text. */
    function Eq(other: InorderVisitor?): (r: bool)
      reads this, other
      ensures r <==> other != null && buffer == other.buffer
    {
      other != null && String() == other.String()
    }

    method Visit<V>(node: RB<V>)
      modifies this
      ensures buffer == old(buffer) + Ser(node)
      decreases node
    {
      if node.Nil? {
        buffer := buffer + ".";
        return;
      }
      ghost var b0 := buffer;
      buffer := buffer + "(";
      Visit(node.left);
      buffer := buffer + Itoa(node.key);
      Visit(node.right);
      buffer := buffer + ")";
      SerNodeAfter(b0, node);
    }
  }
}
