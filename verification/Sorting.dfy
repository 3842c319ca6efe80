/** Sorting by a text each item has, those with one text kept in the order given. */
module Sorting {
  import opened Sequences
  import opened Texts

  function KeysBy<T>(keyOf: T -> string, items: seq<T>): (r: seq<string>)
    ensures |r| == |items| && forall i :: 0 <= i < |r| ==> r[i] == keyOf(items[i])
  {
    if items == [] then [] else [keyOf(items[0])] + KeysBy(keyOf, items[1..])
  }

  function InsertBy<T>(keyOf: T -> string, sorted: seq<T>, item: T): seq<T> {
    if sorted == [] then [item]
    else
      var last := |sorted| - 1;
      if TextBefore(keyOf(item), keyOf(sorted[last])) then InsertBy(keyOf, sorted[..last], item) + [sorted[last]]
      else sorted + [item]
  }

  function SortBy<T>(keyOf: T -> string, items: seq<T>): seq<T> {
    if items == [] then [] else InsertBy(keyOf, SortBy(keyOf, items[..|items| - 1]), items[|items| - 1])
  }

  predicate Ascending(keys: seq<string>) {
    forall i, j :: 0 <= i < j < |keys| ==> !TextBefore(keys[j], keys[i])
  }

  // ---------------------------------------------------------------- what it keeps

  lemma {:induction false} InsertMembers<T>(keyOf: T -> string, sorted: seq<T>, item: T, x: T)
    ensures x in InsertBy(keyOf, sorted, item) <==> x in sorted || x == item
  {
    if sorted != [] {
      assert sorted == sorted[..|sorted| - 1] + [sorted[|sorted| - 1]];
      InsertMembers(keyOf, sorted[..|sorted| - 1], item, x);
    }
  }

  lemma {:induction false} SortMembers<T>(keyOf: T -> string, items: seq<T>, x: T)
    ensures x in SortBy(keyOf, items) <==> x in items
  {
    if items != [] {
      var front, last := items[..|items| - 1], items[|items| - 1];
      assert items == front + [last];
      SortMembers(keyOf, front, x);
      InsertMembers(keyOf, SortBy(keyOf, front), last, x);
    }
  }

  lemma KeysSnoc<T>(keyOf: T -> string, items: seq<T>, item: T)
    ensures KeysBy(keyOf, items + [item]) == KeysBy(keyOf, items) + [keyOf(item)]
  {
  }

  lemma OneMoreKey(keys: seq<string>, inner: seq<string>, l: string, k: string)
    requires multiset(inner) == multiset(keys) + multiset{k}
    ensures multiset(inner + [l]) == multiset(keys + [l]) + multiset{k}
  {
    assert multiset(inner + [l]) == multiset(inner) + multiset{l};
    assert multiset(keys + [l]) == multiset(keys) + multiset{l};
  }

  lemma {:induction false} InsertKeeps<T>(keyOf: T -> string, sorted: seq<T>, item: T)
    ensures multiset(KeysBy(keyOf, InsertBy(keyOf, sorted, item))) ==
            multiset(KeysBy(keyOf, sorted)) + multiset{keyOf(item)}
  {
    var k := keyOf(item);
    if sorted != [] && TextBefore(k, keyOf(sorted[|sorted| - 1])) {
      var front, last := sorted[..|sorted| - 1], sorted[|sorted| - 1];
      assert sorted == front + [last];
      KeysSnoc(keyOf, front, last);
      InsertKeeps(keyOf, front, item);
      KeysSnoc(keyOf, InsertBy(keyOf, front, item), last);
      OneMoreKey(KeysBy(keyOf, front), KeysBy(keyOf, InsertBy(keyOf, front, item)), keyOf(last), k);
    } else {
      KeysSnoc(keyOf, sorted, item);
    }
  }

  // --------------------------------------------------------------- ascending keys

  lemma AscendingSnoc(keys: seq<string>, k: string)
    requires Ascending(keys) && forall i :: 0 <= i < |keys| ==> !TextBefore(k, keys[i])
    ensures Ascending(keys + [k])
  {
  }

  lemma AscendingFront(keys: seq<string>, last: string)
    requires Ascending(keys + [last])
    ensures Ascending(keys)
  {
    forall i, j | 0 <= i < j < |keys|
      ensures !TextBefore(keys[j], keys[i])
    {
      assert (keys + [last])[i] == keys[i] && (keys + [last])[j] == keys[j];
    }
  }

  lemma EndAscends(keys: seq<string>, k: string)
    requires Ascending(keys) && (keys == [] || !TextBefore(k, keys[|keys| - 1]))
    ensures Ascending(keys + [k])
  {
    forall i | 0 <= i < |keys|
      ensures !TextBefore(k, keys[i])
    {
      var l := keys[|keys| - 1];
      if i < |keys| - 1 {
        assert !TextBefore(l, keys[i]);
        NotBefore(keys[i], l, k);
      }
    }
    AscendingSnoc(keys, k);
  }

  lemma InsideAscends(keys: seq<string>, l: string, k: string, inner: seq<string>)
    requires Ascending(keys + [l]) && Ascending(inner) && TextBefore(k, l)
    requires multiset(inner) == multiset(keys) + multiset{k}
    ensures Ascending(inner + [l])
  {
    NotAfter(k, l);
    forall i | 0 <= i < |inner|
      ensures !TextBefore(l, inner[i])
    {
      assert inner[i] in multiset(inner);
      if inner[i] != k { InKeys(keys, inner[i], l); }
    }
    AscendingSnoc(inner, l);
  }

  lemma InKeys(keys: seq<string>, k: string, last: string)
    requires k in keys && Ascending(keys + [last])
    ensures !TextBefore(last, k)
  {
    var i :| 0 <= i < |keys| && keys[i] == k;
    assert (keys + [last])[i] == k && (keys + [last])[|keys|] == last;
  }

  lemma NotAfter(a: string, b: string)
    requires TextBefore(a, b)
    ensures !TextBefore(b, a)
  {
    if TextBefore(b, a) {
      BeforeIsTransitive(a, b, a);
      NotBeforeItself(a);
    }
  }

  /** `a` at most `b` at most `c`, so `c` is not before `a`. */
  lemma NotBefore(a: string, b: string, c: string)
    requires !TextBefore(b, a) && !TextBefore(c, b)
    ensures !TextBefore(c, a)
  {
    BeforeIsTotal(a, b);
    if TextBefore(c, a) && TextBefore(a, b) { BeforeIsTransitive(c, a, b); }
  }

  lemma {:induction false} InsertAscends<T>(keyOf: T -> string, sorted: seq<T>, item: T)
    requires Ascending(KeysBy(keyOf, sorted))
    ensures Ascending(KeysBy(keyOf, InsertBy(keyOf, sorted, item)))
  {
    var k := keyOf(item);
    if sorted != [] && TextBefore(k, keyOf(sorted[|sorted| - 1])) {
      var front, last := sorted[..|sorted| - 1], sorted[|sorted| - 1];
      assert sorted == front + [last];
      KeysSnoc(keyOf, front, last);
      AscendingFront(KeysBy(keyOf, front), keyOf(last));
      InsertAscends(keyOf, front, item);
      InsertKeeps(keyOf, front, item);
      InsideAscends(KeysBy(keyOf, front), keyOf(last), k, KeysBy(keyOf, InsertBy(keyOf, front, item)));
      KeysSnoc(keyOf, InsertBy(keyOf, front, item), last);
    } else {
      EndAscends(KeysBy(keyOf, sorted), k);
      KeysSnoc(keyOf, sorted, item);
    }
  }

  /** The sorted keys ascend, and are the keys there were as often as they were there. */
  lemma {:induction false} SortedKeys<T>(keyOf: T -> string, items: seq<T>)
    ensures Ascending(KeysBy(keyOf, SortBy(keyOf, items)))
    ensures multiset(KeysBy(keyOf, SortBy(keyOf, items))) == multiset(KeysBy(keyOf, items))
  {
    if items != [] {
      var front, last := items[..|items| - 1], items[|items| - 1];
      assert items == front + [last];
      SortedKeys(keyOf, front);
      InsertAscends(keyOf, SortBy(keyOf, front), last);
      InsertKeeps(keyOf, SortBy(keyOf, front), last);
      KeysSnoc(keyOf, front, last);
    }
  }

  lemma {:induction false} InsertKeepsItems<T>(keyOf: T -> string, sorted: seq<T>, item: T)
    ensures multiset(InsertBy(keyOf, sorted, item)) == multiset(sorted) + multiset{item}
  {
    if sorted != [] {
      var front, last := sorted[..|sorted| - 1], sorted[|sorted| - 1];
      assert sorted == front + [last];
      InsertKeepsItems(keyOf, front, item);
    }
  }

  /** Sorting keeps the items, each as often. */
  lemma {:induction false} SortKeepsItems<T>(keyOf: T -> string, items: seq<T>)
    ensures multiset(SortBy(keyOf, items)) == multiset(items)
  {
    if items != [] {
      var front, last := items[..|items| - 1], items[|items| - 1];
      assert items == front + [last];
      SortKeepsItems(keyOf, front);
      InsertKeepsItems(keyOf, SortBy(keyOf, front), last);
    }
  }

  /** The items with this key, in order. */
  function Having<T>(keyOf: T -> string, items: seq<T>, key: string): seq<T> {
    if items == [] then [] else
      var front, last := items[..|items| - 1], items[|items| - 1];
      Having(keyOf, front, key) + if keyOf(last) == key then [last] else []
  }

  lemma HavingSnoc<T>(keyOf: T -> string, items: seq<T>, item: T, key: string)
    ensures Having(keyOf, items + [item], key) == Having(keyOf, items, key) + if keyOf(item) == key then [item] else []
  {
    assert (items + [item])[..|items|] == items;
  }

  lemma {:induction false} InsertIsStable<T>(keyOf: T -> string, sorted: seq<T>, item: T, key: string)
    ensures Having(keyOf, InsertBy(keyOf, sorted, item), key) ==
            Having(keyOf, sorted, key) + if keyOf(item) == key then [item] else []
  {
    if sorted != [] && TextBefore(keyOf(item), keyOf(sorted[|sorted| - 1])) {
      var front, last := sorted[..|sorted| - 1], sorted[|sorted| - 1];
      InsertIsStable(keyOf, front, item, key);
      HavingSnoc(keyOf, InsertBy(keyOf, front, item), last, key);
      NotBeforeItself(key);
    } else {
      HavingSnoc(keyOf, sorted, item, key);
    }
  }

  /** Items with one key keep their order. */
  lemma {:induction false} SortIsStable<T>(keyOf: T -> string, items: seq<T>, key: string)
    ensures Having(keyOf, SortBy(keyOf, items), key) == Having(keyOf, items, key)
  {
    if items != [] {
      var front, last := items[..|items| - 1], items[|items| - 1];
      SortIsStable(keyOf, front, key);
      InsertIsStable(keyOf, SortBy(keyOf, front), last, key);
    }
  }

  lemma SameLast(a: seq<string>, b: seq<string>)
    requires Ascending(a) && Ascending(b) && multiset(a) == multiset(b) && a != [] && b != []
    ensures a[|a| - 1] == b[|b| - 1]
  {
    var x, y := a[|a| - 1], b[|b| - 1];
    assert x in multiset(a) && y in multiset(b);
    AtMostLast(a, y);
    AtMostLast(b, x);
    BeforeIsTotal(x, y);
  }

  lemma FrontOf(a: seq<string>) returns (front: seq<string>, last: string)
    requires Ascending(a) && a != []
    ensures front == a[..|a| - 1] && last == a[|a| - 1] && a == front + [last]
    ensures Ascending(front) && multiset(front) == multiset(a) - multiset{last}
  {
    front, last := a[..|a| - 1], a[|a| - 1];
    assert a == front + [last];
    AscendingFront(front, last);
  }

  lemma {:induction false} AscendingIsUnique(a: seq<string>, b: seq<string>)
    requires Ascending(a) && Ascending(b) && multiset(a) == multiset(b)
    ensures a == b
  {
    SameLength(a, b);
    if a != [] {
      SameLast(a, b);
      var front, x := FrontOf(a);
      var other, y := FrontOf(b);
      AscendingIsUnique(front, other);
    }
  }

  lemma SameLength(a: seq<string>, b: seq<string>)
    requires multiset(a) == multiset(b)
    ensures |a| == |b|
  {
    assert |multiset(a)| == |a| && |multiset(b)| == |b|;
  }

  lemma AtMostLast(keys: seq<string>, k: string)
    requires Ascending(keys) && k in keys
    ensures !TextBefore(keys[|keys| - 1], k)
  {
    var i :| 0 <= i < |keys| && keys[i] == k;
    NotBeforeItself(k);
  }

  /** Two lists have the same sorted keys exactly when they have the same keys as often. */
  lemma SameKeys<T>(keyOf: T -> string, a: seq<T>, b: seq<T>)
    ensures KeysBy(keyOf, SortBy(keyOf, a)) == KeysBy(keyOf, SortBy(keyOf, b)) <==>
            multiset(KeysBy(keyOf, a)) == multiset(KeysBy(keyOf, b))
  {
    SortedKeys(keyOf, a);
    SortedKeys(keyOf, b);
    if multiset(KeysBy(keyOf, a)) == multiset(KeysBy(keyOf, b)) {
      AscendingIsUnique(KeysBy(keyOf, SortBy(keyOf, a)), KeysBy(keyOf, SortBy(keyOf, b)));
    }
  }

  lemma {:induction false} SortedDistinct<T>(keyOf: T -> string, items: seq<T>)
    requires Distinct(KeysBy(keyOf, items))
    ensures Distinct(KeysBy(keyOf, SortBy(keyOf, items)))
  {
    SortedKeys(keyOf, items);
    PartDistinct(KeysBy(keyOf, SortBy(keyOf, items)), KeysBy(keyOf, items));
  }

  /** Where no two items have one key, sorting forgets the order and nothing else. */
  lemma SortedIsSet<T>(keyOf: T -> string, a: seq<T>, b: seq<T>)
    requires Distinct(KeysBy(keyOf, a)) && Distinct(KeysBy(keyOf, b))
    ensures SortBy(keyOf, a) == SortBy(keyOf, b) <==> forall x :: x in a <==> x in b
  {
    forall x
      ensures x in SortBy(keyOf, a) <==> x in a
      ensures x in SortBy(keyOf, b) <==> x in b
    {
      SortMembers(keyOf, a, x);
      SortMembers(keyOf, b, x);
    }
    if forall x :: x in a <==> x in b { SameItems(keyOf, a, b); }
  }

  lemma KeyMembers<T>(keyOf: T -> string, items: seq<T>, k: string)
    ensures k in KeysBy(keyOf, items) <==> exists x :: x in items && keyOf(x) == k
  {
    if k in KeysBy(keyOf, items) {
      var i :| 0 <= i < |items| && KeysBy(keyOf, items)[i] == k;
      assert items[i] in items;
    }
    if x :| x in items && keyOf(x) == k {
      var i :| 0 <= i < |items| && items[i] == x;
      assert KeysBy(keyOf, items)[i] == k;
    }
  }

  lemma SameItems<T>(keyOf: T -> string, a: seq<T>, b: seq<T>)
    requires Distinct(KeysBy(keyOf, a)) && Distinct(KeysBy(keyOf, b))
    requires forall x :: x in a <==> x in b
    ensures SortBy(keyOf, a) == SortBy(keyOf, b)
  {
    var x, y := SortBy(keyOf, a), SortBy(keyOf, b);
    forall k
      ensures k in KeysBy(keyOf, a) <==> k in KeysBy(keyOf, b)
    {
      KeyMembers(keyOf, a, k);
      KeyMembers(keyOf, b, k);
    }
    SameMembers(KeysBy(keyOf, a), KeysBy(keyOf, b));
    SameKeys(keyOf, a, b);
    SortedDistinct(keyOf, a);
    assert |x| == |KeysBy(keyOf, x)| == |KeysBy(keyOf, y)| == |y|;
    forall i | 0 <= i < |x|
      ensures x[i] == y[i]
    {
      SortMembers(keyOf, b, y[i]);
      SortMembers(keyOf, a, y[i]);
      assert y[i] in y;
      var j :| 0 <= j < |x| && x[j] == y[i];
      assert KeysBy(keyOf, x)[j] == KeysBy(keyOf, y)[i] == KeysBy(keyOf, x)[i];
    }
  }
}
