/**
 * `sorted(xs, key=...)` for keys that are pairs of strings: Python compares
 * the pairs lexicographically and keeps equal keys in input order (the sort
 * is stable). Modelled by insertion in input order.
 */
module Sorting {
  import opened Strings

  /** A key `(primary, secondary)` as a Python tuple of two strings. */
  datatype Key = Key(primary: string, secondary: string)

  /** Python's `<` on the tuples. */
  predicate KeyLess(a: Key, b: Key) {
    LexLess(a.primary, b.primary) || (a.primary == b.primary && LexLess(a.secondary, b.secondary))
  }

  lemma KeyLessIrreflexive(a: Key)
    ensures !KeyLess(a, a)
  {
    LexLessIrreflexive(a.primary);
    LexLessIrreflexive(a.secondary);
  }

  lemma KeyLessTransitive(a: Key, b: Key, c: Key)
    requires KeyLess(a, b) && KeyLess(b, c)
    ensures KeyLess(a, c)
  {
    if LexLess(a.primary, b.primary) && LexLess(b.primary, c.primary) {
      LexLessTransitive(a.primary, b.primary, c.primary);
    } else if a.primary == b.primary == c.primary {
      LexLessTransitive(a.secondary, b.secondary, c.secondary);
    }
  }

  /** Any two keys are equal or one is below the other. */
  lemma KeyLessConnected(a: Key, b: Key)
    ensures a == b || KeyLess(a, b) || KeyLess(b, a)
  {
    if a.primary != b.primary {
      LexLessTotal(a.primary, b.primary);
    } else if a.secondary != b.secondary {
      LexLessTotal(a.secondary, b.secondary);
    }
  }

  lemma KeyLessAsymmetric(a: Key, b: Key)
    requires KeyLess(a, b)
    ensures !KeyLess(b, a)
  {
    if LexLess(a.primary, b.primary) {
      LexLessAsymmetric(a.primary, b.primary);
      LexLessIrreflexive(a.primary);
    } else {
      LexLessAsymmetric(a.secondary, b.secondary);
    }
  }

  datatype Keyed<T> = Keyed(key: Key, item: T)

  /** No element is followed by one with a smaller key. */
  predicate SortedByKey<T>(s: seq<Keyed<T>>) {
    forall i, j :: 0 <= i < j < |s| ==> !KeyLess(s[j].key, s[i].key)
  }

  /** The elements of `s` that carry key `k`, in order. */
  function WithKey<T>(s: seq<Keyed<T>>, k: Key): seq<Keyed<T>>
  {
    if s == [] then [] else (if s[0].key == k then [s[0]] else []) + WithKey(s[1..], k)
  }

  lemma {:induction false} WithKeyAppend<T>(a: seq<Keyed<T>>, b: seq<Keyed<T>>, k: Key)
    ensures WithKey(a + b, k) == WithKey(a, k) + WithKey(b, k)
    decreases |a|
  {
    if a == [] {
      assert a + b == b;
    } else {
      assert (a + b)[0] == a[0];
      assert (a + b)[1..] == a[1..] + b;
      WithKeyAppend(a[1..], b, k);
    }
  }

  lemma {:induction false} WithKeyNone<T>(s: seq<Keyed<T>>, k: Key)
    requires forall y :: y in s ==> y.key != k
    ensures WithKey(s, k) == []
    decreases |s|
  {
    if s != [] {
      WithKeyNone(s[1..], k);
    }
  }

  /** Insert `x` after every element whose key is not above its own. */
  function Insert<T>(x: Keyed<T>, s: seq<Keyed<T>>): (r: seq<Keyed<T>>)
    ensures multiset(r) == multiset(s) + multiset{x}
    ensures |r| == |s| + 1
  {
    if s == [] then [x]
    else if KeyLess(x.key, s[0].key) then [x] + s
    else
      assert s == [s[0]] + s[1..];
      [s[0]] + Insert(x, s[1..])
  }

  /** In a sorted sequence every element is at or above the first. */
  lemma SortedHeadBelow<T>(s: seq<Keyed<T>>, x: Key)
    requires SortedByKey(s) && s != [] && KeyLess(x, s[0].key)
    ensures forall y :: y in s ==> KeyLess(x, y.key)
  {
    forall y | y in s ensures KeyLess(x, y.key) {
      KeyLessConnected(s[0].key, y.key);
      if KeyLess(s[0].key, y.key) {
        KeyLessTransitive(x, s[0].key, y.key);
      }
    }
  }

  lemma {:induction false} InsertSorted<T>(x: Keyed<T>, s: seq<Keyed<T>>)
    requires SortedByKey(s)
    ensures SortedByKey(Insert(x, s))
    decreases |s|
  {
    if s == [] {
    } else if KeyLess(x.key, s[0].key) {
      var r := Insert(x, s);
      assert r == [x] + s;
      SortedHeadBelow(s, x.key);
      forall j | 0 < j < |r| ensures !KeyLess(r[j].key, x.key) {
        assert r[j] in s;
        KeyLessAsymmetric(x.key, r[j].key);
      }
    } else {
      InsertSorted(x, s[1..]);
      var tail := Insert(x, s[1..]);
      assert Insert(x, s) == [s[0]] + tail;
      forall j | 0 <= j < |tail| ensures !KeyLess(tail[j].key, s[0].key) {
        assert tail[j] in multiset(tail);
        if tail[j] != x {
          assert tail[j] in multiset(s[1..]);
          var m :| 0 <= m < |s[1..]| && s[1..][m] == tail[j];
          assert s[m + 1] == tail[j];
        }
      }
    }
  }

  /** A sorted `s` with `x` inserted: the elements with key `k` are those of `s`, then `x` if it has that key. */
  lemma {:induction false} InsertWithKey<T>(x: Keyed<T>, s: seq<Keyed<T>>, k: Key)
    requires SortedByKey(s)
    ensures WithKey(Insert(x, s), k) == WithKey(s, k) + WithKey([x], k)
    decreases |s|
  {
    if s == [] {
    } else if KeyLess(x.key, s[0].key) {
      InsertBeforeWithKey(x, s, k);
    } else {
      var rest := s[1..];
      assert SortedByKey(rest) by {
        forall i, j | 0 <= i < j < |rest| ensures !KeyLess(rest[j].key, rest[i].key) {
          assert rest[i] == s[i + 1] && rest[j] == s[j + 1];
        }
      }
      InsertWithKey(x, rest, k);
      assert Insert(x, s) == [s[0]] + Insert(x, rest);
      ConsWithKey(s, Insert(x, rest), x, k);
    }
  }

  /** Putting the first element back in front of a stable tail keeps its key class ahead. */
  lemma ConsWithKey<T>(s: seq<Keyed<T>>, tail: seq<Keyed<T>>, x: Keyed<T>, k: Key)
    requires s != []
    requires WithKey(tail, k) == WithKey(s[1..], k) + WithKey([x], k)
    ensures WithKey([s[0]] + tail, k) == WithKey(s, k) + WithKey([x], k)
  {
    var r := [s[0]] + tail;
    assert r[0] == s[0] && r[1..] == tail;
  }


  lemma InsertBeforeWithKey<T>(x: Keyed<T>, s: seq<Keyed<T>>, k: Key)
    requires SortedByKey(s) && s != [] && KeyLess(x.key, s[0].key)
    ensures WithKey(Insert(x, s), k) == WithKey(s, k) + WithKey([x], k)
  {
    assert Insert(x, s) == [x] + s;
    WithKeyAppend([x], s, k);
    if x.key == k {
      SortedHeadBelow(s, x.key);
      KeyLessIrreflexive(x.key);
      WithKeyNone(s, k);
    } else {
      assert WithKey([x], k) == [];
    }
  }

  /** The multiset of a sequence is that of all but its last element, plus the last. */
  lemma MultisetSplitLast<T>(s: seq<T>)
    requires s != []
    ensures multiset(s) == multiset(s[..|s| - 1]) + multiset{s[|s| - 1]}
  {
    assert s == s[..|s| - 1] + [s[|s| - 1]];
  }

  /** `sorted(s, key=...)` on elements already paired with their keys. */
  function SortByKey<T>(s: seq<Keyed<T>>): (r: seq<Keyed<T>>)
    ensures SortedByKey(r)
    ensures multiset(r) == multiset(s)
    decreases |s|
  {
    if s == [] then []
    else
      var init, last := s[..|s| - 1], s[|s| - 1];
      var prefix := SortByKey(init);
      InsertSorted(last, prefix);
      MultisetSplitLast(s);
      Insert(last, prefix)
  }

  /** The sort is stable: the elements sharing any one key keep their input order. */
  lemma {:induction false} SortByKeyStable<T>(s: seq<Keyed<T>>, k: Key)
    ensures WithKey(SortByKey(s), k) == WithKey(s, k)
    decreases |s|
  {
    if s != [] {
      var init := s[..|s| - 1];
      var last := s[|s| - 1];
      var prefix := SortByKey(init);
      SortByKeyLast(s);
      SortByKeyStable(init, k);
      InsertWithKey(last, prefix, k);
      InsertStable(s, prefix, k);
    }
  }

  /** Sorting inserts the last element into the sorted rest. */
  lemma SortByKeyLast<T>(s: seq<Keyed<T>>)
    requires s != []
    ensures SortByKey(s) == Insert(s[|s| - 1], SortByKey(s[..|s| - 1]))
  {
  }

  /** One step of the stability proof: inserting the last element after a stable prefix keeps each key's order. */
  lemma InsertStable<T>(s: seq<Keyed<T>>, prefix: seq<Keyed<T>>, k: Key)
    requires s != []
    requires WithKey(prefix, k) == WithKey(s[..|s| - 1], k)
    requires WithKey(Insert(s[|s| - 1], prefix), k) == WithKey(prefix, k) + WithKey([s[|s| - 1]], k)
    ensures WithKey(Insert(s[|s| - 1], prefix), k) == WithKey(s, k)
  {
    var init, last := s[..|s| - 1], s[|s| - 1];
    assert s == init + [last];
    WithKeyAppend(init, [last], k);
  }


  function Items<T>(s: seq<Keyed<T>>): (r: seq<T>)
    ensures |r| == |s|
  {
    if s == [] then [] else [s[0].item] + Items(s[1..])
  }

  lemma {:induction false} ItemsInsert<T>(x: Keyed<T>, s: seq<Keyed<T>>)
    ensures multiset(Items(Insert(x, s))) == multiset(Items(s)) + multiset{x.item}
    decreases |s|
  {
    if s == [] {
    } else if KeyLess(x.key, s[0].key) {
      var r := [x] + s;
      assert r[0] == x && r[1..] == s;
      assert Items(r) == [x.item] + Items(s);
      assert multiset(Items(r)) == multiset{x.item} + multiset(Items(s));
    } else {
      var tail := Insert(x, s[1..]);
      var r := [s[0]] + tail;
      assert Insert(x, s) == r;
      assert r[0] == s[0] && r[1..] == tail;
      assert Items(r) == [s[0].item] + Items(tail);
      assert Items(s) == [s[0].item] + Items(s[1..]);
      ItemsInsert(x, s[1..]);
      assert multiset(Items(r)) == multiset{s[0].item} + multiset(Items(tail));
      assert multiset(Items(s)) == multiset{s[0].item} + multiset(Items(s[1..]));
    }
  }

  /** Sorting permutes the items. */
  lemma {:induction false} ItemsSortByKey<T>(s: seq<Keyed<T>>)
    ensures multiset(Items(SortByKey(s))) == multiset(Items(s))
    decreases |s|
  {
    if s != [] {
      var init := s[..|s| - 1];
      var last := s[|s| - 1];
      assert s == init + [last];
      calc {
        multiset(Items(SortByKey(s)));
        multiset(Items(Insert(last, SortByKey(init))));
        { ItemsInsert(last, SortByKey(init)); }
        multiset(Items(SortByKey(init))) + multiset{last.item};
        { ItemsSortByKey(init); }
        multiset(Items(init)) + multiset{last.item};
        multiset(Items(init) + Items([last]));
        { ItemsAppend(init, [last]); }
        multiset(Items(s));
      }
    }
  }

  lemma {:induction false} ItemsAppend<T>(a: seq<Keyed<T>>, b: seq<Keyed<T>>)
    ensures Items(a + b) == Items(a) + Items(b)
    decreases |a|
  {
    if a == [] {
      assert a + b == b;
    } else {
      assert (a + b)[1..] == a[1..] + b;
      ItemsAppend(a[1..], b);
    }
  }

  lemma {:induction false} ItemsAt<T>(s: seq<Keyed<T>>, i: nat)
    requires i < |s|
    ensures Items(s)[i] == s[i].item
    decreases i
  {
    if i > 0 {
      ItemsAt(s[1..], i - 1);
    }
  }
}
