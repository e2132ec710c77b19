/** Python's `sorted(xs, key=k)`: a stable sort by a real-valued key.
    As in CPython, each element is first paired with its key (decorated),
    the pairs are sorted by key alone, and the elements are read back.
    The sort is modelled as insertion sort that puts each element after
    every element whose key is not larger, which keeps equal keys in input
    order. */
module StableSort {

  /** An element together with its precomputed sort key. */
  datatype Keyed<T> = Keyed(key: real, item: T)

  /** Keys never decrease along `s`. */
  predicate SortedByKey<T>(s: seq<Keyed<T>>) {
    forall i, j :: 0 <= i < j < |s| ==> s[i].key <= s[j].key
  }

  /** The elements without their keys. */
  function Items<T>(s: seq<Keyed<T>>): (r: seq<T>)
    ensures |r| == |s|
  {
    seq(|s|, i requires 0 <= i < |s| => s[i].item)
  }

  /** Puts `x` in front of the first element whose key is strictly larger. */
  function Insert<T>(s: seq<Keyed<T>>, x: Keyed<T>): (r: seq<Keyed<T>>)
    requires SortedByKey(s)
    ensures |r| == |s| + 1
    ensures multiset(r) == multiset(s) + multiset{x}
    ensures SortedByKey(r)
    ensures r[0] == x || (|s| > 0 && r[0] == s[0])
  {
    if |s| == 0 then [x]
    else if x.key < s[0].key then [x] + s
    else
      var rest := Insert(s[1..], x);
      assert s == [s[0]] + s[1..];
      assert s[0].key <= rest[0].key;
      [s[0]] + rest
  }

  /** `sorted` on decorated elements. */
  function Sort<T>(s: seq<Keyed<T>>): (r: seq<Keyed<T>>)
    ensures |r| == |s|
    ensures multiset(r) == multiset(s)
    ensures SortedByKey(r)
  {
    if |s| == 0 then []
    else
      var init, last := s[..|s| - 1], s[|s| - 1];
      assert s == init + [last];
      Insert(Sort(init), last)
  }

  lemma ItemsAppend<T>(a: seq<Keyed<T>>, b: seq<Keyed<T>>)
    ensures Items(a + b) == Items(a) + Items(b)
  {
  }

  /** Sorting the decorated elements permutes the undecorated ones. */
  lemma {:induction false} InsertItems<T>(s: seq<Keyed<T>>, x: Keyed<T>)
    requires SortedByKey(s)
    ensures multiset(Items(Insert(s, x))) == multiset(Items(s)) + multiset{x.item}
  {
    if |s| == 0 {
    } else if x.key < s[0].key {
      ItemsAppend([x], s);
    } else {
      InsertItems(s[1..], x);
      assert s == [s[0]] + s[1..];
      ItemsAppend([s[0]], s[1..]);
      ItemsAppend([s[0]], Insert(s[1..], x));
    }
  }

  lemma {:induction false} SortItems<T>(s: seq<Keyed<T>>)
    ensures multiset(Items(Sort(s))) == multiset(Items(s))
  {
    if |s| > 0 {
      var init, last := s[..|s| - 1], s[|s| - 1];
      var sortedInit := Sort(init);
      assert s == init + [last];
      assert Sort(s) == Insert(sortedInit, last);
      SortItems(init);
      InsertItems(sortedInit, last);
      ItemsAppend(init, [last]);
      assert Items([last]) == [last.item];
      calc {
        multiset(Items(Sort(s)));
        multiset(Items(sortedInit)) + multiset{last.item};
        multiset(Items(init)) + multiset{last.item};
        multiset(Items(init) + [last.item]);
        multiset(Items(s));
      }
    }
  }

  /** The elements of `s` whose key equals `k`, in their order in `s`. */
  function WithKey<T>(s: seq<Keyed<T>>, k: real): seq<Keyed<T>> {
    if |s| == 0 then []
    else (if s[0].key == k then [s[0]] else []) + WithKey(s[1..], k)
  }

  lemma {:induction false} WithKeyAppend<T>(a: seq<Keyed<T>>, b: seq<Keyed<T>>, k: real)
    ensures WithKey(a + b, k) == WithKey(a, k) + WithKey(b, k)
  {
    if |a| == 0 {
      assert a + b == b;
    } else {
      var head := if a[0].key == k then [a[0]] else [];
      assert (a + b)[0] == a[0];
      assert (a + b)[1..] == a[1..] + b;
      WithKeyAppend(a[1..], b, k);
      calc {
        WithKey(a + b, k);
        head + WithKey(a[1..] + b, k);
        head + (WithKey(a[1..], k) + WithKey(b, k));
        (head + WithKey(a[1..], k)) + WithKey(b, k);
        WithKey(a, k) + WithKey(b, k);
      }
    }
  }

  lemma {:induction false} WithKeyAllAbove<T>(s: seq<Keyed<T>>, k: real)
    requires forall i :: 0 <= i < |s| ==> s[i].key > k
    ensures WithKey(s, k) == []
  {
    if |s| > 0 {
      WithKeyAllAbove(s[1..], k);
    }
  }

  /** `WithKey` on a sequence with a known first element. */
  lemma WithKeyCons<T>(x: Keyed<T>, s: seq<Keyed<T>>, k: real)
    ensures WithKey([x] + s, k) == (if x.key == k then [x] else []) + WithKey(s, k)
  {
    assert ([x] + s)[0] == x;
    assert ([x] + s)[1..] == s;
  }

  /** Inserting `x` into a sorted sequence puts it after every element of
      equal key. */
  lemma {:induction false} InsertWithKey<T>(s: seq<Keyed<T>>, x: Keyed<T>, k: real)
    requires SortedByKey(s)
    ensures WithKey(Insert(s, x), k) == WithKey(s, k) + (if x.key == k then [x] else [])
    decreases |s|, 1
  {
    if |s| == 0 {
      WithKeyCons(x, [], k);
      assert [x] + [] == [x];
    } else if x.key < s[0].key {
      InsertInFront(s, x, k);
    } else {
      InsertFurther(s, x, k);
    }
  }

  /** `x` goes in front: if its key is `k`, nothing in `s` has key `k`. */
  lemma InsertInFront<T>(s: seq<Keyed<T>>, x: Keyed<T>, k: real)
    requires SortedByKey(s) && |s| > 0 && x.key < s[0].key
    ensures WithKey(Insert(s, x), k) == WithKey(s, k) + (if x.key == k then [x] else [])
  {
    assert Insert(s, x) == [x] + s;
    WithKeyCons(x, s, k);
    if x.key == k {
      WithKeyAllAbove(s, k);
    }
  }

  /** One step of `Insert` when `x` does not go in front. */
  lemma InsertStep<T>(s: seq<Keyed<T>>, x: Keyed<T>)
    requires SortedByKey(s) && |s| > 0 && x.key >= s[0].key
    ensures SortedByKey(s[1..])
    ensures Insert(s, x) == [s[0]] + Insert(s[1..], x)
  {
  }

  /** Putting the same element in front of two sequences keeps a relation
      between their `WithKey` projections. */
  lemma WithKeyConsShift<T>(a: Keyed<T>, s: seq<Keyed<T>>, r: seq<Keyed<T>>, tail: seq<Keyed<T>>, k: real)
    requires WithKey(r, k) == WithKey(s, k) + tail
    ensures WithKey([a] + r, k) == WithKey([a] + s, k) + tail
  {
    WithKeyCons(a, r, k);
    WithKeyCons(a, s, k);
    var head := if a.key == k then [a] else [];
    assert head + (WithKey(s, k) + tail) == (head + WithKey(s, k)) + tail;
  }

  /** `x` goes after the first element: it is inserted into the rest. */
  lemma {:induction false} InsertFurther<T>(s: seq<Keyed<T>>, x: Keyed<T>, k: real)
    requires SortedByKey(s) && |s| > 0 && x.key >= s[0].key
    ensures WithKey(Insert(s, x), k) == WithKey(s, k) + (if x.key == k then [x] else [])
    decreases |s|, 0
  {
    assert s == [s[0]] + s[1..];
    InsertStep(s, x);
    InsertWithKey(s[1..], x, k);
    WithKeyConsShift(s[0], s[1..], Insert(s[1..], x), if x.key == k then [x] else [], k);
  }

  /** Stability: for every key value, the elements carrying it appear in the
      output in exactly their input order. */
  lemma {:induction false} SortIsStable<T>(s: seq<Keyed<T>>, k: real)
    ensures WithKey(Sort(s), k) == WithKey(s, k)
  {
    if |s| > 0 {
      var init, last := s[..|s| - 1], s[|s| - 1];
      assert s == init + [last];
      SortIsStable(init, k);
      InsertWithKey(Sort(init), last, k);
      WithKeyAppend(init, [last], k);
    }
  }
}
