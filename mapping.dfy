/** The ordered key -> payload mapping a tree stands for, as a strictly
    increasing sequence of entries, with the reference definitions of
    inserting (or overwriting) and removing a key. */
module Mapping {
  import opened RBTypes

  /** Sorted-list insert: overwrite the entry with key k, or add one in key order. */
  function InsertEntry<V>(s: seq<Entry<V>>, k: int, v: V): seq<Entry<V>>
  {
    if s == [] then [Entry(k, v)]
    else if k < s[0].key then [Entry(k, v)] + s
    else if k == s[0].key then [Entry(k, v)] + s[1..]
    else [s[0]] + InsertEntry(s[1..], k, v)
  }

  /** Drop every entry with key k. */
  function RemoveKey<V>(s: seq<Entry<V>>, k: int): seq<Entry<V>>
  {
    if s == [] then []
    else if s[0].key == k then RemoveKey(s[1..], k)
    else [s[0]] + RemoveKey(s[1..], k)
  }

  lemma {:induction false} FindKeys<V>(s: seq<Entry<V>>, k: int)
    ensures Find(s, k).Some? <==> k in KeysOf(s)
  {
    if s != [] {
      FindKeys(s[1..], k);
      KeysOfCons(s);
    }
  }

  lemma KeysOfCons<V>(s: seq<Entry<V>>)
    requires s != []
    ensures KeysOf(s) == {s[0].key} + KeysOf(s[1..])
  {
    forall x | x in KeysOf(s) ensures x in {s[0].key} + KeysOf(s[1..]) {
      var i :| 0 <= i < |s| && s[i].key == x;
      if i > 0 { assert s[1..][i - 1] == s[i]; }
    }
    forall x | x in KeysOf(s[1..]) ensures x in KeysOf(s) {
      var i :| 0 <= i < |s[1..]| && s[1..][i].key == x;
      assert s[i + 1] == s[1..][i];
    }
  }

  lemma TailIncreasing<V>(s: seq<Entry<V>>)
    requires s != [] && StrictlyIncreasing(s)
    ensures StrictlyIncreasing(s[1..]) && AllAbove(s[1..], s[0].key)
  {
    assert forall i :: 0 <= i < |s| - 1 ==> s[1..][i] == s[i + 1];
  }

  lemma ConsIncreasing<V>(e: Entry<V>, s: seq<Entry<V>>)
    requires StrictlyIncreasing(s) && AllAbove(s, e.key)
    ensures StrictlyIncreasing([e] + s)
  {
    var t := [e] + s;
    forall i, j | 0 <= i < j < |t| ensures t[i].key < t[j].key {
      assert t[j] == s[j - 1];
      if i > 0 { assert t[i] == s[i - 1]; }
    }
  }

  /** Inserting adds the key k and no other. */
  lemma {:induction false} InsertKeys<V>(s: seq<Entry<V>>, k: int, v: V)
    ensures KeysOf(InsertEntry(s, k, v)) == KeysOf(s) + {k}
  {
    var r := InsertEntry(s, k, v);
    KeysOfCons(r);
    if s == [] {
      assert r[1..] == [];
    } else {
      KeysOfCons(s);
      if k < s[0].key {
        assert r[1..] == s;
      } else if k == s[0].key {
        assert r[1..] == s[1..];
      } else {
        InsertKeys(s[1..], k, v);
        assert r[1..] == InsertEntry(s[1..], k, v);
      }
    }
  }

  /** A sequence whose keys all lie above lo is entirely above lo. */
  lemma AboveByKeys<V>(s: seq<Entry<V>>, lo: int)
    requires forall x :: x in KeysOf(s) ==> lo < x
    ensures AllAbove(s, lo)
  {
    forall i | 0 <= i < |s| ensures lo < s[i].key {
      assert s[i].key in KeysOf(s);
    }
  }

  /** Inserting into a strictly increasing sequence keeps it strictly increasing,
      and only the key k is added. */
  lemma {:induction false} InsertIncreasing<V>(s: seq<Entry<V>>, k: int, v: V)
    requires StrictlyIncreasing(s)
    ensures StrictlyIncreasing(InsertEntry(s, k, v))
    ensures KeysOf(InsertEntry(s, k, v)) == KeysOf(s) + {k}
  {
    InsertKeys(s, k, v);
    if s != [] {
      TailIncreasing(s);
      if k < s[0].key {
        ConsIncreasing(Entry(k, v), s);
      } else if k == s[0].key {
        ConsIncreasing(Entry(k, v), s[1..]);
      } else {
        var rest := InsertEntry(s[1..], k, v);
        InsertIncreasing(s[1..], k, v);
        assert forall x :: x in KeysOf(s[1..]) ==> s[0].key < x;
        AboveByKeys(rest, s[0].key);
        ConsIncreasing(s[0], rest);
      }
    }
  }

  /** Get after Put: the new key maps to v, every other key keeps its payload. */
  lemma {:induction false} FindInsert<V>(s: seq<Entry<V>>, k: int, v: V, k': int)
    ensures Find(InsertEntry(s, k, v), k') == if k' == k then Some(v) else Find(s, k')
  {
    if s != [] && k > s[0].key {
      FindInsert(s[1..], k, v, k');
      assert ([s[0]] + InsertEntry(s[1..], k, v))[1..] == InsertEntry(s[1..], k, v);
    } else if s != [] && k == s[0].key {
      assert ([Entry(k, v)] + s[1..])[1..] == s[1..];
    } else if s != [] {
      assert ([Entry(k, v)] + s)[1..] == s;
    }
  }

  /** Size after Put: one more entry exactly when the key was absent. */
  lemma {:induction false} InsertLength<V>(s: seq<Entry<V>>, k: int, v: V)
    requires StrictlyIncreasing(s)
    ensures |InsertEntry(s, k, v)| == if k in KeysOf(s) then |s| else |s| + 1
  {
    if s != [] {
      KeysOfCons(s);
      TailIncreasing(s);
      if k > s[0].key {
        InsertLength(s[1..], k, v);
      } else if k < s[0].key {
        assert k !in KeysOf(s[1..]) by {
          forall i | 0 <= i < |s[1..]| ensures s[1..][i].key != k { }
        }
      }
    }
  }

  /** Overwriting: a key already present at entry e is replaced in place. */
  lemma {:induction false} InsertAtEntry<V>(a: seq<Entry<V>>, e: Entry<V>, b: seq<Entry<V>>, v: V)
    requires StrictlyIncreasing(a + [e] + b)
    ensures InsertEntry(a + [e] + b, e.key, v) == a + [Entry(e.key, v)] + b
  {
    IncreasingSplit(a, e, b);
    if a != [] {
      assert (a + [e] + b)[0] == a[0];
      assert (a + [e] + b)[1..] == a[1..] + [e] + b;
      IncreasingSplit(a[1..], e, b) by {
        TailIncreasing(a + [e] + b);
      }
      InsertAtEntry(a[1..], e, b, v);
    } else {
      assert (a + [e] + b)[1..] == b;
    }
  }

  /** A fresh key k lands between the entries below it and those above it. */
  lemma {:induction false} InsertBetween<V>(a: seq<Entry<V>>, b: seq<Entry<V>>, k: int, v: V)
    requires AllBelow(a, k) && AllAbove(b, k)
    ensures InsertEntry(a + b, k, v) == a + [Entry(k, v)] + b
  {
    if a == [] {
      assert a + b == b;
      if b != [] {
        assert b[0].key > k;
      }
    } else {
      assert (a + b)[0] == a[0] && (a + b)[1..] == a[1..] + b;
      InsertBetween(a[1..], b, k, v);
    }
  }

  /** Removing keeps the sequence strictly increasing and drops exactly key k. */
  lemma {:induction false} RemoveIncreasing<V>(s: seq<Entry<V>>, k: int)
    requires StrictlyIncreasing(s)
    ensures StrictlyIncreasing(RemoveKey(s, k))
    ensures KeysOf(RemoveKey(s, k)) == KeysOf(s) - {k}
  {
    if s != [] {
      var rest := RemoveKey(s[1..], k);
      TailIncreasing(s);
      KeysOfCons(s);
      RemoveIncreasing(s[1..], k);
      if s[0].key != k {
        var r := [s[0]] + rest;
        assert r[1..] == rest;
        KeysOfCons(r);
        assert AllAbove(rest, s[0].key) by {
          forall i | 0 <= i < |rest| ensures s[0].key < rest[i].key {
            assert rest[i].key in KeysOf(rest);
            var j :| 0 <= j < |s[1..]| && s[1..][j].key == rest[i].key;
          }
        }
        ConsIncreasing(s[0], rest);
      }
    }
  }

  /** Get after Delete: k is gone, every other key keeps its payload. */
  lemma {:induction false} FindRemove<V>(s: seq<Entry<V>>, k: int, k': int)
    ensures Find(RemoveKey(s, k), k') == if k' == k then None else Find(s, k')
  {
    if s != [] {
      FindRemove(s[1..], k, k');
      if s[0].key != k {
        assert ([s[0]] + RemoveKey(s[1..], k))[1..] == RemoveKey(s[1..], k);
      }
    }
  }

  /** Removing the key of entry e from a strictly increasing a + [e] + b leaves a + b. */
  lemma {:induction false} RemoveAtEntry<V>(a: seq<Entry<V>>, e: Entry<V>, b: seq<Entry<V>>)
    requires StrictlyIncreasing(a + [e] + b)
    ensures RemoveKey(a + [e] + b, e.key) == a + b
  {
    IncreasingSplit(a, e, b);
    if a != [] {
      assert (a + [e] + b)[0] == a[0];
      assert (a + [e] + b)[1..] == a[1..] + [e] + b;
      assert StrictlyIncreasing(a[1..] + [e] + b) by {
        TailIncreasing(a + [e] + b);
      }
      RemoveAtEntry(a[1..], e, b);
      assert a + b == [a[0]] + (a[1..] + b);
    } else {
      assert (a + [e] + b)[1..] == b;
      RemoveAbsent(b, e.key);
    }
  }

  lemma {:induction false} RemoveAbsent<V>(s: seq<Entry<V>>, k: int)
    requires AllAbove(s, k)
    ensures RemoveKey(s, k) == s
  {
    if s != [] {
      RemoveAbsent(s[1..], k);
    }
  }

  /** Removing a key the sequence does not hold changes nothing. */
  lemma {:induction false} RemoveMissing<V>(s: seq<Entry<V>>, k: int)
    requires k !in KeysOf(s)
    ensures RemoveKey(s, k) == s
  {
    if s != [] {
      KeysOfCons(s);
      RemoveMissing(s[1..], k);
    }
  }

  /** In a strictly increasing a + [e] + b, looking up e's key finds e's payload. */
  lemma {:induction false} FindAtEntry<V>(a: seq<Entry<V>>, e: Entry<V>, b: seq<Entry<V>>)
    requires StrictlyIncreasing(a + [e] + b)
    ensures Find(a + [e] + b, e.key) == Some(e.payload)
  {
    IncreasingSplit(a, e, b);
    if a != [] {
      assert (a + [e] + b)[0] == a[0];
      assert (a + [e] + b)[1..] == a[1..] + [e] + b;
      assert StrictlyIncreasing(a[1..] + [e] + b) by {
        TailIncreasing(a + [e] + b);
      }
      FindAtEntry(a[1..], e, b);
    }
  }

  /** Size after Delete: one entry fewer exactly when the key was present. */
  lemma {:induction false} RemoveLength<V>(s: seq<Entry<V>>, k: int)
    requires StrictlyIncreasing(s)
    ensures |RemoveKey(s, k)| == if k in KeysOf(s) then |s| - 1 else |s|
  {
    if s != [] {
      KeysOfCons(s);
      TailIncreasing(s);
      RemoveLength(s[1..], k);
      if s[0].key == k {
        forall i | 0 <= i < |s[1..]| ensures s[1..][i].key != k { }
      }
    }
  }
}
