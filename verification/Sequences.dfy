/** Sequences without repeats, and where an element first is. */
module Sequences {

  predicate Distinct<T(==)>(s: seq<T>) {
    forall i, j :: 0 <= i < j < |s| ==> s[i] != s[j]
  }

  /** Where `x` first is in `s`, or the length of `s`. */
  function IndexOf<T(==)>(s: seq<T>, x: T): (at: nat)
    ensures at <= |s| && (at < |s| <==> x in s)
    ensures at < |s| ==> s[at] == x
    ensures forall j :: 0 <= j < at ==> s[j] != x
  {
    if s == [] || s[0] == x then 0 else 1 + IndexOf(s[1..], x)
  }

  /** Every element once, where it is first. */
  function Unique<T(==, !new)>(s: seq<T>): (r: seq<T>)
    ensures forall x :: x in r <==> x in s
    ensures Distinct(r)
  {
    if s == [] then [] else
      var front := Unique(s[..|s| - 1]);
      assert s == s[..|s| - 1] + [s[|s| - 1]];
      if s[|s| - 1] in front then front else front + [s[|s| - 1]]
  }

  lemma {:induction false} UniqueOfDistinct<T(!new)>(s: seq<T>)
    requires Distinct(s)
    ensures Unique(s) == s
  {
    if s != [] {
      var front, last := s[..|s| - 1], s[|s| - 1];
      assert s == front + [last];
      UniqueOfDistinct(front);
    }
  }

  /** Repeats dropped from the front first, or all at once: the same elements are left, in the same order. */
  lemma {:induction false} UniqueOfUnique<T(!new)>(a: seq<T>, b: seq<T>)
    ensures Unique(Unique(a) + b) == Unique(a + b)
  {
    if b == [] {
      assert Unique(a) + b == Unique(a) && a + b == a;
      UniqueOfDistinct(Unique(a));
    } else {
      var front, last := b[..|b| - 1], b[|b| - 1];
      UniqueOfUnique(a, front);
      UniqueLast(Unique(a), front, last);
      UniqueLast(a, front, last);
      assert b == front + [last];
    }
  }

  lemma UniqueLast<T(!new)>(a: seq<T>, front: seq<T>, last: T)
    ensures Unique(a + (front + [last])) ==
            if last in a || last in front then Unique(a + front) else Unique(a + front) + [last]
  {
    assert a + (front + [last]) == (a + front) + [last];
    UniqueMore(a + front, last);
  }

  lemma UniqueMore<T(!new)>(s: seq<T>, x: T)
    ensures Unique(s + [x]) == if x in s then Unique(s) else Unique(s) + [x]
  {
    var more := s + [x];
    assert more[..|more| - 1] == s && more[|more| - 1] == x;
  }

  lemma {:induction false} UniqueExtends<T(!new)>(first: seq<T>, more: seq<T>)
    requires Distinct(first)
    ensures first <= Unique(first + more)
  {
    if more == [] {
      assert first + more == first;
      UniqueOfDistinct(first);
    } else {
      var front, last := more[..|more| - 1], more[|more| - 1];
      UniqueExtends(first, front);
      UniqueLast(first, front, last);
      assert more == front + [last];
    }
  }

  /** Of two distinct elements kept, the one that is first in the sequence comes first. */
  lemma {:induction false} UniqueInOrder<T(!new)>(s: seq<T>)
    ensures forall i, j :: 0 <= i < |Unique(s)| && 0 <= j < |Unique(s)| ==>
              (i < j <==> IndexOf(s, Unique(s)[i]) < IndexOf(s, Unique(s)[j]))
  {
    if s != [] {
      var front, last := s[..|s| - 1], s[|s| - 1];
      assert s == front + [last];
      UniqueInOrder(front);
      UniqueMore(front, last);
      forall x | x in s
        ensures IndexOf(s, x) == if x in front then IndexOf(front, x) else |front|
      {
        IndexInLonger(front, last, x);
      }
      assert forall i :: 0 <= i < |Unique(front)| ==> Unique(front)[i] in Unique(front);
    }
  }

  lemma IndexInLonger<T>(s: seq<T>, next: T, x: T)
    ensures IndexOf(s + [next], x) == if x in s then IndexOf(s, x) else if next == x then |s| else |s| + 1
  {
    var all, p := s + [next], IndexOf(s, x);
    assert all[|s|] == next && forall j :: 0 <= j < |s| ==> all[j] == s[j];
    var q := IndexOf(all, x);
    if q < |s| { assert s[q] == x; }
  }

  lemma {:induction false} UniqueOfOne<T(!new)>(s: seq<T>, x: T)
    requires s != [] && forall i :: 0 <= i < |s| ==> s[i] == x
    ensures Unique(s) == [x]
  {
    var front := s[..|s| - 1];
    if front != [] { UniqueOfOne(front, x); }
  }

  lemma {:induction false} DistinctCount<T>(s: seq<T>, x: T)
    requires Distinct(s)
    ensures multiset(s)[x] == if x in s then 1 else 0
  {
    if s != [] {
      var front, last := s[..|s| - 1], s[|s| - 1];
      assert s == front + [last];
      DistinctCount(front, x);
    }
  }

  lemma {:induction false} DistinctSize<T>(s: seq<T>)
    requires Distinct(s)
    ensures |set x | x in s| == |s|
  {
    if s != [] {
      var front, last := s[..|s| - 1], s[|s| - 1];
      assert s == front + [last];
      DistinctSize(front);
      assert (set x | x in s) == (set x | x in front) + {last};
    }
  }

  lemma SameMembers<T>(a: seq<T>, b: seq<T>)
    requires Distinct(a) && Distinct(b)
    requires forall x :: x in a <==> x in b
    ensures multiset(a) == multiset(b)
  {
    forall x
      ensures multiset(a)[x] == multiset(b)[x]
    {
      DistinctCount(a, x);
      DistinctCount(b, x);
    }
  }

  lemma Twice<T>(s: seq<T>, i: nat, j: nat)
    requires i < j < |s| && s[i] == s[j]
    ensures multiset(s)[s[i]] >= 2
  {
    assert s == s[..j] + s[j..];
    assert s[i] in s[..j] && s[j] in s[j..];
  }

  lemma PartDistinct<T>(part: seq<T>, whole: seq<T>)
    requires Distinct(whole) && multiset(part) <= multiset(whole)
    ensures Distinct(part)
  {
    forall i, j | 0 <= i < j < |part|
      ensures part[i] != part[j]
    {
      if part[i] == part[j] {
        Twice(part, i, j);
        DistinctCount(whole, part[i]);
        assert false;
      }
    }
  }
}
