/** What changed between two versions of a summary, with a guard change reported as one change. */
module Diff {
  import opened Sequences

  /** An effect as what it does, and the lines it was written on. */
  datatype Placed = Placed(what: string, location: string)

  /** `rest` is what a transition produces besides its effects: its output, its label, what it expects. */
  datatype Transition = Transition(id: string, location: string, conditions: string, isDefault: bool, rest: string,
                                   effects: seq<Placed>)

  datatype Behaviour = Behaviour(id: string, conditions: string, isDefault: bool, outcome: Outcome)

  datatype Outcome = Outcome(rest: string, effects: seq<string>)

  datatype Change = Change(before: Transition, after: Transition)

  datatype SummaryDiff = SummaryDiff(added: seq<Transition>, removed: seq<Transition>, changed: seq<Change>)

  function Unplaced(effects: seq<Placed>): seq<string> {
    if effects == [] then [] else [effects[0].what] + Unplaced(effects[1..])
  }

  /** What two transitions with one id must share not to count as changed; no location is part of it. */
  function BehaviourOf(t: Transition): Behaviour {
    Behaviour(t.id, t.conditions, t.isDefault, OutcomeOf(t))
  }

  /** What two transitions with different ids must share to be paired; neither id nor conditions are part of it. */
  function OutcomeOf(t: Transition): Outcome {
    Outcome(t.rest, Unplaced(t.effects))
  }

  // ----------------------------------------------------- what counts as the same

  /** The same output and the same effects, in the same order, wherever they are written. */
  predicate SameWork(a: Transition, b: Transition) {
    && a.rest == b.rest && |a.effects| == |b.effects|
    && forall i :: 0 <= i < |a.effects| ==> a.effects[i].what == b.effects[i].what
  }

  predicate SameGuard(a: Transition, b: Transition) {
    a.conditions == b.conditions && a.isDefault == b.isDefault
  }

  lemma {:induction false} SameUnplaced(a: seq<Placed>, b: seq<Placed>)
    ensures Unplaced(a) == Unplaced(b) <==>
            |a| == |b| && forall i :: 0 <= i < |a| ==> a[i].what == b[i].what
  {
    UnplacedAt(a);
    UnplacedAt(b);
    if Unplaced(a) == Unplaced(b) {
      assert forall i :: 0 <= i < |a| ==> Unplaced(a)[i] == Unplaced(b)[i];
    }
  }

  lemma {:induction false} UnplacedAt(effects: seq<Placed>)
    ensures |Unplaced(effects)| == |effects|
    ensures forall i :: 0 <= i < |effects| ==> Unplaced(effects)[i] == effects[i].what
  {
    if effects != [] { UnplacedAt(effects[1..]); }
  }

  lemma SameOutcome(a: Transition, b: Transition)
    ensures OutcomeOf(a) == OutcomeOf(b) <==> SameWork(a, b)
  {
    SameUnplaced(a.effects, b.effects);
  }

  lemma SameBehaviour(a: Transition, b: Transition)
    requires a.id == b.id
    ensures BehaviourOf(a) == BehaviourOf(b) <==> SameGuard(a, b) && SameWork(a, b)
  {
    SameOutcome(a, b);
  }

  // ---------------------------------------------------------------- by rank

  /** How many of the transitions produce the outcome. */
  function Count(ts: seq<Transition>, o: Outcome): nat {
    if ts == [] then 0 else Count(ts[..|ts| - 1], o) + if OutcomeOf(ts[|ts| - 1]) == o then 1 else 0
  }

  /** The `k`-th transition with the outcome, counting from none. */
  function Nth(ts: seq<Transition>, o: Outcome, k: nat): (r: Transition)
    requires k < Count(ts, o)
    ensures r in ts && OutcomeOf(r) == o
  {
    var front := ts[..|ts| - 1];
    assert ts == front + [ts[|ts| - 1]];
    if k < Count(front, o) then Nth(front, o, k) else ts[|ts| - 1]
  }

  /** The transitions with as many before them of their outcome as the other side has of it, or more. */
  function Leftover(ts: seq<Transition>, other: seq<Transition>): seq<Transition> {
    if ts == [] then [] else
      var front, last := ts[..|ts| - 1], ts[|ts| - 1];
      if Count(front, OutcomeOf(last)) < Count(other, OutcomeOf(last)) then Leftover(front, other)
        else Leftover(front, other) + [last]
  }

  /** Each other transition, with the one at its rank among those of its outcome on the other side. */
  function Paired(ts: seq<Transition>, other: seq<Transition>): seq<Change> {
    if ts == [] then [] else
      var front, last := ts[..|ts| - 1], ts[|ts| - 1];
      var o, k := OutcomeOf(last), Count(front, OutcomeOf(last));
      if k < Count(other, o) then Paired(front, other) + [Change(last, Nth(other, o, k))] else Paired(front, other)
  }

  function FirstWith(ts: seq<Transition>, o: Outcome): (i: nat)
    ensures i <= |ts|
    ensures i < |ts| ==> OutcomeOf(ts[i]) == o
    ensures forall j :: 0 <= j < i ==> OutcomeOf(ts[j]) != o
  {
    if ts == [] then 0 else if OutcomeOf(ts[0]) == o then 0 else 1 + FirstWith(ts[1..], o)
  }

  function Without<T>(ts: seq<T>, i: nat): seq<T>
    requires i < |ts|
  {
    ts[..i] + ts[i + 1..]
  }

  method FindOutcome(ts: seq<Transition>, o: Outcome) returns (index: int)
    ensures index == if FirstWith(ts, o) < |ts| then FirstWith(ts, o) else -1
  {
    for i := 0 to |ts|
      invariant i <= FirstWith(ts, o)
    {
      if OutcomeOf(ts[i]) == o {
        return i;
      }
    }
    return -1;
  }

  lemma CountSnoc(ts: seq<Transition>, t: Transition, o: Outcome)
    ensures Count(ts + [t], o) == Count(ts, o) + if OutcomeOf(t) == o then 1 else 0
  {
    assert (ts + [t])[..|ts|] == ts;
  }

  lemma LeftoverSnoc(ts: seq<Transition>, t: Transition, other: seq<Transition>)
    ensures Leftover(ts + [t], other) ==
            if Count(ts, OutcomeOf(t)) < Count(other, OutcomeOf(t)) then Leftover(ts, other)
              else Leftover(ts, other) + [t]
  {
    assert (ts + [t])[..|ts|] == ts;
  }

  lemma PairedSnoc(ts: seq<Transition>, t: Transition, other: seq<Transition>)
    ensures Paired(ts + [t], other) ==
            var o, k := OutcomeOf(t), Count(ts, OutcomeOf(t));
            if k < Count(other, o) then Paired(ts, other) + [Change(t, Nth(other, o, k))] else Paired(ts, other)
  {
    assert (ts + [t])[..|ts|] == ts;
  }

  lemma {:induction false} LeftoverOfNone(ts: seq<Transition>)
    ensures Leftover(ts, []) == ts
  {
    if ts != [] {
      LeftoverOfNone(ts[..|ts| - 1]);
      assert ts == ts[..|ts| - 1] + [ts[|ts| - 1]];
    }
  }

  /** The first leftover of an outcome is the one whose rank the other side has used up to, and taking it out uses one
      more. */
  lemma {:induction false} LeftoverTakes(ts: seq<Transition>, other: seq<Transition>, t: Transition)
    ensures var o := OutcomeOf(t);
            var left, i := Leftover(ts, other), FirstWith(Leftover(ts, other), OutcomeOf(t));
            && (i < |left| <==> Count(other, o) < Count(ts, o))
            && (i < |left| ==> left[i] == Nth(ts, o, Count(other, o)) && Leftover(ts, other + [t]) == Without(left, i))
            && (i == |left| ==> Leftover(ts, other + [t]) == left)
  {
    if ts != [] {
      var front, last := ts[..|ts| - 1], ts[|ts| - 1];
      LeftoverTakes(front, other, t);
      CountSnoc(other, t, OutcomeOf(last));
      var left, o := Leftover(front, other), OutcomeOf(t);
      var tail := if Count(front, OutcomeOf(last)) < Count(other, OutcomeOf(last)) then [] else [last];
      assert Leftover(ts, other) == left + tail;
      FirstInJoin(left, tail, o);
    }
  }

  lemma {:induction false} FirstInJoin(a: seq<Transition>, b: seq<Transition>, o: Outcome)
    ensures FirstWith(a + b, o) == if FirstWith(a, o) < |a| then FirstWith(a, o) else |a| + FirstWith(b, o)
    ensures FirstWith(a, o) < |a| ==> Without(a + b, FirstWith(a, o)) == Without(a, FirstWith(a, o)) + b
    ensures FirstWith(a, o) == |a| && FirstWith(b, o) < |b| ==>
            Without(a + b, |a| + FirstWith(b, o)) == a + Without(b, FirstWith(b, o))
  {
    FirstIndex(a, b, o);
    if FirstWith(a, o) < |a| { WithoutLeft(a, b, FirstWith(a, o)); }
    if FirstWith(b, o) < |b| { WithoutRight(a, b, FirstWith(b, o)); }
  }

  lemma {:induction false} FirstIndex(a: seq<Transition>, b: seq<Transition>, o: Outcome)
    ensures FirstWith(a + b, o) == if FirstWith(a, o) < |a| then FirstWith(a, o) else |a| + FirstWith(b, o)
  {
    if a == [] {
      assert a + b == b;
    } else {
      FirstIndex(a[1..], b, o);
      assert (a + b)[1..] == a[1..] + b;
    }
  }

  lemma WithoutLeft<T>(a: seq<T>, b: seq<T>, i: nat)
    requires i < |a|
    ensures Without(a + b, i) == Without(a, i) + b
  {
  }

  lemma WithoutRight<T>(a: seq<T>, b: seq<T>, i: nat)
    requires i < |b|
    ensures Without(a + b, |a| + i) == a + Without(b, i)
  {
  }

  /** The loop gives the rank-by-rank pairing: `Paired`, and `Leftover` of each side against the other. */
  method PairGuardChanges(removed: seq<Transition>, added: seq<Transition>)
    returns (stillRemoved: seq<Transition>, unmatchedAdded: seq<Transition>, changed: seq<Change>)
    ensures stillRemoved == Leftover(removed, added)
    ensures unmatchedAdded == Leftover(added, removed)
    ensures changed == Paired(removed, added)
  {
    unmatchedAdded, stillRemoved, changed := added, [], [];
    LeftoverOfNone(added);
    for i := 0 to |removed|
      invariant stillRemoved == Leftover(removed[..i], added)
      invariant unmatchedAdded == Leftover(added, removed[..i])
      invariant changed == Paired(removed[..i], added)
    {
      var beforeT := removed[i];
      assert removed[..i + 1] == removed[..i] + [beforeT];
      LeftoverSnoc(removed[..i], beforeT, added);
      PairedSnoc(removed[..i], beforeT, added);
      LeftoverTakes(added, removed[..i], beforeT);
      var index := FindOutcome(unmatchedAdded, OutcomeOf(beforeT));
      if index == -1 {
        stillRemoved := stillRemoved + [beforeT];
        continue;
      }
      var afterT := unmatchedAdded[index];
      unmatchedAdded := unmatchedAdded[..index] + unmatchedAdded[index + 1..];
      changed := changed + [Change(beforeT, afterT)];
    }
    assert removed[..|removed|] == removed;
  }

  // ------------------------------------------------------------- what pairing keeps

  function Befores(changes: seq<Change>): seq<Transition> {
    if changes == [] then [] else Befores(changes[..|changes| - 1]) + [changes[|changes| - 1].before]
  }

  function Afters(changes: seq<Change>): seq<Transition> {
    if changes == [] then [] else Afters(changes[..|changes| - 1]) + [changes[|changes| - 1].after]
  }

  lemma AftersSnoc(changes: seq<Change>, c: Change)
    ensures Afters(changes + [c]) == Afters(changes) + [c.after]
    ensures Befores(changes + [c]) == Befores(changes) + [c.before]
  {
    assert (changes + [c])[..|changes|] == changes;
  }

  lemma OneMore<T>(s: seq<T>, x: T)
    ensures multiset(s + [x]) == multiset(s) + multiset{x}
  {
  }

  lemma OneEither<T>(whole: seq<T>, x: T, a: seq<T>, b: seq<T>)
    requires multiset(whole) == multiset(a) + multiset(b)
    ensures multiset(whole + [x]) == multiset(a + [x]) + multiset(b) == multiset(a) + multiset(b + [x])
  {
    OneMore(whole, x);
    OneMore(a, x);
    OneMore(b, x);
  }

  lemma LeftoverOrBefore(ts: seq<Transition>, t: Transition, other: seq<Transition>)
    ensures var left, befores := Leftover(ts, other), Befores(Paired(ts, other));
            || (Leftover(ts + [t], other) == left + [t] && Befores(Paired(ts + [t], other)) == befores)
            || (Leftover(ts + [t], other) == left && Befores(Paired(ts + [t], other)) == befores + [t])
  {
    LeftoverSnoc(ts, t, other);
    PairedSnoc(ts, t, other);
    if Count(ts, OutcomeOf(t)) < Count(other, OutcomeOf(t)) {
      AftersSnoc(Paired(ts, other), Change(t, Nth(other, OutcomeOf(t), Count(ts, OutcomeOf(t)))));
    }
  }

  /** Nothing is lost or doubled on the removed side. */
  lemma {:induction false} RemovedAreKept(removed: seq<Transition>, added: seq<Transition>)
    ensures multiset(removed) == multiset(Leftover(removed, added)) + multiset(Befores(Paired(removed, added)))
  {
    if removed != [] {
      var front, last := removed[..|removed| - 1], removed[|removed| - 1];
      assert removed == front + [last];
      RemovedAreKept(front, added);
      LeftoverOrBefore(front, last, added);
      OneEither(front, last, Leftover(front, added), Befores(Paired(front, added)));
    }
  }

  lemma WithoutIsLess<T>(ts: seq<T>, i: nat)
    requires i < |ts|
    ensures multiset(ts) == multiset(Without(ts, i)) + multiset{ts[i]}
  {
    assert ts == ts[..i] + [ts[i]] + ts[i + 1..];
  }

  /** Nothing is lost or doubled on the added side. */
  lemma {:induction false} AddedAreKept(removed: seq<Transition>, added: seq<Transition>)
    ensures multiset(added) == multiset(Leftover(added, removed)) + multiset(Afters(Paired(removed, added)))
  {
    if removed == [] {
      LeftoverOfNone(added);
    } else {
      var front, last := removed[..|removed| - 1], removed[|removed| - 1];
      assert removed == front + [last];
      AddedAreKept(front, added);
      LeftoverTakes(added, front, last);
      var left, o := Leftover(added, front), OutcomeOf(last);
      if Count(front, o) < Count(added, o) {
        WithoutIsLess(left, FirstWith(left, o));
        OneMore(Afters(Paired(front, added)), Nth(added, o, Count(front, o)));
        AftersSnoc(Paired(front, added), Change(last, Nth(added, o, Count(front, o))));
      }
    }
  }

  lemma {:induction false} LeftoverCount(ts: seq<Transition>, other: seq<Transition>, o: Outcome)
    ensures Count(Leftover(ts, other), o) == if Count(ts, o) <= Count(other, o) then 0
            else Count(ts, o) - Count(other, o)
  {
    if ts != [] {
      var front, last := ts[..|ts| - 1], ts[|ts| - 1];
      LeftoverCount(front, other, o);
      CountSnoc(Leftover(front, other), last, o);
    }
  }

  /** Each outcome is paired as often as the side that has it less often has it. */
  lemma {:induction false} PairedCount(ts: seq<Transition>, other: seq<Transition>, o: Outcome)
    ensures Count(Befores(Paired(ts, other)), o) == Count(Afters(Paired(ts, other)), o) ==
            if Count(ts, o) <= Count(other, o) then Count(ts, o) else Count(other, o)
  {
    if ts != [] {
      var front, last := ts[..|ts| - 1], ts[|ts| - 1];
      PairedCount(front, other, o);
      var own, k := OutcomeOf(last), Count(front, OutcomeOf(last));
      if k < Count(other, own) {
        var c := Change(last, Nth(other, own, k));
        AftersSnoc(Paired(front, other), c);
        CountSnoc(Befores(Paired(front, other)), c.before, o);
        CountSnoc(Afters(Paired(front, other)), c.after, o);
      }
    }
  }

  lemma {:induction false} CountOfMember(ts: seq<Transition>, t: Transition)
    requires t in ts
    ensures Count(ts, OutcomeOf(t)) > 0
  {
    var front, last := ts[..|ts| - 1], ts[|ts| - 1];
    assert ts == front + [last];
    if t != last { CountOfMember(front, t); }
  }

  /** No transition left over on one side produces what one left over on the other does. */
  lemma NoLeftoverShared(removed: seq<Transition>, added: seq<Transition>, r: Transition, a: Transition)
    requires r in Leftover(removed, added) && a in Leftover(added, removed)
    ensures !SameWork(r, a)
  {
    SameOutcome(r, a);
    CountOfMember(Leftover(removed, added), r);
    CountOfMember(Leftover(added, removed), a);
    LeftoverCount(removed, added, OutcomeOf(r));
    LeftoverCount(added, removed, OutcomeOf(r));
    if OutcomeOf(r) == OutcomeOf(a) {
      LeftoverCount(added, removed, OutcomeOf(a));
    }
  }

  // ------------------------------------------------------------------- mirrored

  function Mirrored(c: Change): Change {
    Change(c.after, c.before)
  }

  /** Two transitions at the same rank of the same outcome on their sides. */
  predicate SameRank(ts: seq<Transition>, i: int, other: seq<Transition>, j: int) {
    && 0 <= i < |ts| && 0 <= j < |other|
    && OutcomeOf(ts[i]) == OutcomeOf(other[j])
    && Count(ts[..i], OutcomeOf(ts[i])) == Count(other[..j], OutcomeOf(other[j]))
  }

  lemma {:induction false} NthAt(ts: seq<Transition>, o: Outcome, k: nat) returns (j: nat)
    requires k < Count(ts, o)
    ensures j < |ts| && ts[j] == Nth(ts, o, k) && OutcomeOf(ts[j]) == o && Count(ts[..j], o) == k
  {
    var last := |ts| - 1;
    if k < Count(ts[..last], o) {
      j := NthAt(ts[..last], o, k);
      assert ts[..last][..j] == ts[..j];
    } else {
      j := last;
    }
  }

  lemma {:induction false} AtIsNth(ts: seq<Transition>, j: nat)
    requires j < |ts|
    ensures Count(ts[..j], OutcomeOf(ts[j])) < Count(ts, OutcomeOf(ts[j]))
    ensures ts[j] == Nth(ts, OutcomeOf(ts[j]), Count(ts[..j], OutcomeOf(ts[j])))
  {
    var last := |ts| - 1;
    if j < last {
      AtIsNth(ts[..last], j);
      assert ts[..last][..j] == ts[..j];
    }
  }

  lemma {:induction false} PairedHasRank(ts: seq<Transition>, other: seq<Transition>, c: Change)
    returns (i: nat, j: nat)
    requires c in Paired(ts, other)
    ensures SameRank(ts, i, other, j) && c == Change(ts[i], other[j])
  {
    var n := |ts| - 1;
    var front, last := ts[..n], ts[n];
    if c in Paired(front, other) {
      i, j := PairedHasRank(front, other, c);
      assert ts[..i] == front[..i];
    } else {
      i := n;
      j := NthAt(other, OutcomeOf(last), Count(front, OutcomeOf(last)));
    }
  }

  lemma {:induction false} RankIsPaired(ts: seq<Transition>, other: seq<Transition>, i: nat, j: nat)
    requires SameRank(ts, i, other, j)
    ensures Change(ts[i], other[j]) in Paired(ts, other)
  {
    var n := |ts| - 1;
    if i < n {
      var front := ts[..n];
      assert front[..i] == ts[..i] && front[i] == ts[i];
      RankIsPaired(front, other, i, j);
    } else {
      AtIsNth(other, j);
    }
  }

  /** Swapping the sides mirrors the pairs, which are the transitions at the same rank of the same outcome. */
  lemma PairedMirrored(ts: seq<Transition>, other: seq<Transition>, c: Change)
    ensures c in Paired(ts, other) <==> Mirrored(c) in Paired(other, ts)
  {
    if c in Paired(ts, other) {
      var i, j := PairedHasRank(ts, other, c);
      RankIsPaired(other, ts, j, i);
    }
    if Mirrored(c) in Paired(other, ts) {
      var i, j := PairedHasRank(other, ts, Mirrored(c));
      RankIsPaired(ts, other, j, i);
    }
  }

  // ------------------------------------------------------------- the whole diff

  predicate HasId(ts: seq<Transition>, id: string) {
    exists i :: 0 <= i < |ts| && ts[i].id == id
  }

  function Ids(ts: seq<Transition>): (r: seq<string>)
    ensures |r| == |ts| && forall i :: 0 <= i < |r| ==> r[i] == ts[i].id
  {
    if ts == [] then [] else [ts[0].id] + Ids(ts[1..])
  }

  /** Where the id is, or the length when it is nowhere. */
  function PlaceOf(ts: seq<Transition>, id: string): (i: nat)
    ensures i <= |ts|
    ensures i < |ts| ==> ts[i].id == id
    ensures forall j :: 0 <= j < i ==> ts[j].id != id
  {
    IndexOf(Ids(ts), id)
  }

  predicate DistinctIds(ts: seq<Transition>) {
    forall i, j :: 0 <= i < j < |ts| ==> ts[i].id != ts[j].id
  }

  function Keyed(entries: seq<Transition>, t: Transition): seq<Transition> {
    var at := PlaceOf(entries, t.id);
    if at < |entries| then entries[at := t] else entries + [t]
  }

  /** One transition an id, in the order the ids first appear; a later transition takes an earlier one's place. */
  function ById(ts: seq<Transition>): seq<Transition> {
    if ts == [] then [] else Keyed(ById(ts[..|ts| - 1]), ts[|ts| - 1])
  }

  lemma KeyedIds(entries: seq<Transition>, t: Transition)
    requires DistinctIds(entries)
    ensures DistinctIds(Keyed(entries, t))
    ensures forall id :: HasId(Keyed(entries, t), id) <==> HasId(entries, id) || id == t.id
  {
    var i := PlaceOf(entries, t.id);
    if i < |entries| {
      HasIdUpdate(entries, i, t);
      assert HasId(entries, t.id);
    } else {
      HasIdSnoc(entries, t);
    }
  }

  /** Each id has one entry, and transitions with ids of their own are their own entries. */
  lemma {:induction false} ByIdIds(ts: seq<Transition>)
    ensures DistinctIds(ById(ts))
    ensures forall id :: HasId(ById(ts), id) <==> HasId(ts, id)
    ensures DistinctIds(ts) ==> ById(ts) == ts
  {
    if ts != [] {
      var front, last := ts[..|ts| - 1], ts[|ts| - 1];
      assert ts == front + [last];
      ByIdIds(front);
      KeyedIds(ById(front), last);
      HasIdSnoc(front, last);
      if DistinctIds(ts) { DistinctFront(front, last); }
    }
  }

  lemma DistinctFront(front: seq<Transition>, last: Transition)
    requires DistinctIds(front + [last])
    ensures DistinctIds(front) && !HasId(front, last.id)
  {
    var ts := front + [last];
    assert forall i :: 0 <= i < |front| ==> front[i] == ts[i] && ts[i].id != ts[|front|].id;
  }

  lemma HasIdSnoc(ts: seq<Transition>, t: Transition)
    ensures forall id :: HasId(ts + [t], id) <==> HasId(ts, id) || id == t.id
  {
    forall id
      ensures HasId(ts + [t], id) <==> HasId(ts, id) || id == t.id
    {
      var all := ts + [t];
      if HasId(ts, id) {
        var i :| 0 <= i < |ts| && ts[i].id == id;
        assert all[i].id == id;
      }
      assert all[|ts|].id == t.id;
    }
  }

  lemma HasIdUpdate(ts: seq<Transition>, i: nat, t: Transition)
    requires i < |ts| && ts[i].id == t.id
    ensures forall id :: HasId(ts[i := t], id) <==> HasId(ts, id)
  {
    forall id
      ensures HasId(ts[i := t], id) <==> HasId(ts, id)
    {
      assert forall k :: 0 <= k < |ts| ==> ts[i := t][k].id == ts[k].id;
    }
  }

  lemma ByIdSnoc(ts: seq<Transition>, t: Transition)
    ensures ById(ts + [t]) == Keyed(ById(ts), t)
  {
    assert (ts + [t])[..|ts|] == ts;
  }

  method EntriesById(ts: seq<Transition>) returns (entries: seq<Transition>)
    ensures entries == ById(ts)
  {
    entries := [];
    for i := 0 to |ts|
      invariant entries == ById(ts[..i])
    {
      assert ts[..i + 1] == ts[..i] + [ts[i]];
      ByIdSnoc(ts[..i], ts[i]);
      entries := Keyed(entries, ts[i]);
    }
    assert ts[..|ts|] == ts;
  }

  /** The transitions whose ids the other side does not have. */
  function MissingFrom(ts: seq<Transition>, other: seq<Transition>): seq<Transition> {
    if ts == [] then [] else
      var front, last := MissingFrom(ts[..|ts| - 1], other), ts[|ts| - 1];
      if HasId(other, last.id) then front else front + [last]
  }

  /** The transition with the same id, where the other side has one. */
  function Partner(t: Transition, other: seq<Transition>): Transition
    requires HasId(other, t.id)
  {
    other[PlaceOf(other, t.id)]
  }

  predicate Differs(t: Transition, other: seq<Transition>) {
    HasId(other, t.id) && BehaviourOf(t) != BehaviourOf(Partner(t, other))
  }

  /** The transitions whose ids the other side has too, doing something else. */
  function ChangedIn(ts: seq<Transition>, other: seq<Transition>): seq<Change> {
    if ts == [] then [] else
      var front, last := ChangedIn(ts[..|ts| - 1], other), ts[|ts| - 1];
      if Differs(last, other) then front + [Change(last, Partner(last, other))] else front
  }

  /** The transitions whose ids the other side has too, doing the same. */
  function UnchangedIn(ts: seq<Transition>, other: seq<Transition>): seq<Transition> {
    if ts == [] then [] else
      var front, last := UnchangedIn(ts[..|ts| - 1], other), ts[|ts| - 1];
      if HasId(other, last.id) && !Differs(last, other) then front + [last] else front
  }

  function DiffOf(before: seq<Transition>, after: seq<Transition>): SummaryDiff {
    var removed, added := MissingFrom(before, after), MissingFrom(after, before);
    SummaryDiff(Leftover(added, removed), Leftover(removed, added), ChangedIn(before, after) + Paired(removed, added))
  }

  lemma MissingSnoc(ts: seq<Transition>, t: Transition, other: seq<Transition>)
    ensures MissingFrom(ts + [t], other) == if HasId(other, t.id) then MissingFrom(ts, other)
            else MissingFrom(ts, other) + [t]
  {
    assert (ts + [t])[..|ts|] == ts;
  }

  lemma ChangedSnoc(ts: seq<Transition>, t: Transition, other: seq<Transition>)
    ensures ChangedIn(ts + [t], other) ==
            if Differs(t, other) then ChangedIn(ts, other) + [Change(t, Partner(t, other))] else ChangedIn(ts, other)
  {
    assert (ts + [t])[..|ts|] == ts;
  }

  method AddedById(beforeById: seq<Transition>, afterById: seq<Transition>) returns (added: seq<Transition>)
    ensures added == MissingFrom(afterById, beforeById)
  {
    added := [];
    for i := 0 to |afterById|
      invariant added == MissingFrom(afterById[..i], beforeById)
    {
      assert afterById[..i + 1] == afterById[..i] + [afterById[i]];
      MissingSnoc(afterById[..i], afterById[i], beforeById);
      if !HasId(beforeById, afterById[i].id) {
        added := added + [afterById[i]];
      }
    }
    assert afterById[..|afterById|] == afterById;
  }

  method RemovedAndChanged(beforeById: seq<Transition>, afterById: seq<Transition>)
    returns (removed: seq<Transition>, changed: seq<Change>)
    ensures removed == MissingFrom(beforeById, afterById)
    ensures changed == ChangedIn(beforeById, afterById)
  {
    removed, changed := [], [];
    for i := 0 to |beforeById|
      invariant removed == MissingFrom(beforeById[..i], afterById)
      invariant changed == ChangedIn(beforeById[..i], afterById)
    {
      var beforeT := beforeById[i];
      assert beforeById[..i + 1] == beforeById[..i] + [beforeT];
      MissingSnoc(beforeById[..i], beforeT, afterById);
      ChangedSnoc(beforeById[..i], beforeT, afterById);
      if !HasId(afterById, beforeT.id) {
        removed := removed + [beforeT];
      } else if BehaviourOf(beforeT) != BehaviourOf(Partner(beforeT, afterById)) {
        changed := changed + [Change(beforeT, Partner(beforeT, afterById))];
      }
    }
    assert beforeById[..|beforeById|] == beforeById;
  }

  method DiffSummaries(before: seq<Transition>, after: seq<Transition>) returns (diff: SummaryDiff)
    ensures diff == DiffOf(ById(before), ById(after))
  {
    var beforeById := EntriesById(before);
    var afterById := EntriesById(after);
    var addedById := AddedById(beforeById, afterById);
    var removedById, changedTransitions := RemovedAndChanged(beforeById, afterById);
    var removed, added, changed := PairGuardChanges(removedById, addedById);
    return SummaryDiff(added, removed, changedTransitions + changed);
  }

  // ---------------------------------------------------------- each exactly once

  lemma {:induction false} ThreeWays(ts: seq<Transition>, other: seq<Transition>)
    ensures multiset(ts) == multiset(MissingFrom(ts, other)) + multiset(Befores(ChangedIn(ts, other))) +
            multiset(UnchangedIn(ts, other))
  {
    if ts != [] {
      var front, last := ts[..|ts| - 1], ts[|ts| - 1];
      assert ts == front + [last];
      ThreeWays(front, other);
      OneMore(front, last);
      OneMore(MissingFrom(front, other), last);
      OneMore(Befores(ChangedIn(front, other)), last);
      OneMore(UnchangedIn(front, other), last);
      if Differs(last, other) { AftersSnoc(ChangedIn(front, other), Change(last, Partner(last, other))); }
    }
  }

  lemma {:induction false} SidesJoin(a: seq<Change>, b: seq<Change>)
    ensures Befores(a + b) == Befores(a) + Befores(b)
    ensures Afters(a + b) == Afters(a) + Afters(b)
  {
    if b == [] {
      assert a + b == a;
    } else {
      var last := |b| - 1;
      SidesJoin(a, b[..last]);
      assert (a + b)[..|a + b| - 1] == a + b[..last];
    }
  }

  /** Each transition of the version before is removed, changed or unchanged, exactly once. */
  lemma EachBeforeOnce(before: seq<Transition>, after: seq<Transition>)
    ensures var diff := DiffOf(before, after);
            multiset(before) == multiset(diff.removed) + multiset(Befores(diff.changed)) +
              multiset(UnchangedIn(before, after))
  {
    var removed, added := MissingFrom(before, after), MissingFrom(after, before);
    ThreeWays(before, after);
    RemovedAreKept(removed, added);
    SidesJoin(ChangedIn(before, after), Paired(removed, added));
  }

  lemma {:induction false} ChangedMembers(ts: seq<Transition>, other: seq<Transition>, t: Transition)
    ensures t in Befores(ChangedIn(ts, other)) <==> t in ts && Differs(t, other)
  {
    if ts != [] {
      var front, last := ts[..|ts| - 1], ts[|ts| - 1];
      assert ts == front + [last];
      ChangedMembers(front, other, t);
      if Differs(last, other) { AftersSnoc(ChangedIn(front, other), Change(last, Partner(last, other))); }
    }
  }

  lemma PartnerOf(ts: seq<Transition>, t: Transition)
    requires DistinctIds(ts) && t in ts
    ensures HasId(ts, t.id) && forall u: Transition :: u.id == t.id ==> Partner(u, ts) == t
  {
    var i :| 0 <= i < |ts| && ts[i] == t;
    assert PlaceOf(ts, t.id) == i;
  }

  lemma {:induction false} ChangeMembers(ts: seq<Transition>, other: seq<Transition>, c: Change)
    requires DistinctIds(other)
    ensures c in ChangedIn(ts, other) <==>
            c.before in ts && c.after in other && c.before.id == c.after.id &&
              BehaviourOf(c.before) != BehaviourOf(c.after)
  {
    if ts != [] {
      var front, last := ts[..|ts| - 1], ts[|ts| - 1];
      assert ts == front + [last];
      ChangeMembers(front, other, c);
      if c.after in other { PartnerOf(other, c.after); }
      if Differs(last, other) { assert Partner(last, other) in other; }
    }
  }

  lemma {:induction false} SideMembers(changes: seq<Change>, t: Transition)
    ensures t in Afters(changes) <==> exists c :: c in changes && c.after == t
    ensures t in Befores(changes) <==> exists c :: c in changes && c.before == t
  {
    if changes != [] {
      var front, last := changes[..|changes| - 1], changes[|changes| - 1];
      assert changes == front + [last];
      SideMembers(front, t);
      if c :| c in changes && c.after == t { assert c in front || c == last; }
      if c :| c in changes && c.before == t { assert c in front || c == last; }
    }
  }

  lemma {:induction false} SidesAt(changes: seq<Change>)
    ensures |Afters(changes)| == |Befores(changes)| == |changes|
    ensures forall k :: 0 <= k < |changes| ==>
            Afters(changes)[k] == changes[k].after && Befores(changes)[k] == changes[k].before
  {
    if changes != [] { SidesAt(changes[..|changes| - 1]); }
  }

  lemma ChangedBeforesDistinct(ts: seq<Transition>, other: seq<Transition>)
    requires DistinctIds(ts)
    ensures DistinctIds(Befores(ChangedIn(ts, other)))
  {
    var befores := Befores(ChangedIn(ts, other));
    ThreeWays(ts, other);
    PartDistinct(befores, ts);
    forall i, j | 0 <= i < j < |befores|
      ensures befores[i].id != befores[j].id
    {
      ChangedMembers(ts, other, befores[i]);
      ChangedMembers(ts, other, befores[j]);
      PartnerOf(ts, befores[i]);
      PartnerOf(ts, befores[j]);
      assert befores[i] != befores[j];
    }
  }

  lemma ChangedAftersDistinct(ts: seq<Transition>, other: seq<Transition>)
    requires DistinctIds(ts) && DistinctIds(other)
    ensures Distinct(Afters(ChangedIn(ts, other)))
  {
    var changes := ChangedIn(ts, other);
    ChangedBeforesDistinct(ts, other);
    SidesAt(changes);
    forall k | 0 <= k < |changes|
      ensures changes[k].before.id == changes[k].after.id
    {
      ChangeMembers(ts, other, changes[k]);
    }
    forall i, j | 0 <= i < j < |changes|
      ensures Afters(changes)[i] != Afters(changes)[j]
    {
      assert Befores(changes)[i].id != Befores(changes)[j].id;
    }
  }

  /** The changes by id are the same, whichever side they are listed from. */
  lemma ChangedSides(before: seq<Transition>, after: seq<Transition>)
    requires DistinctIds(before) && DistinctIds(after)
    ensures multiset(Afters(ChangedIn(before, after))) == multiset(Befores(ChangedIn(after, before)))
  {
    ChangedAftersDistinct(before, after);
    ChangedBeforesDistinct(after, before);
    forall t
      ensures t in Afters(ChangedIn(before, after)) <==> t in Befores(ChangedIn(after, before))
    {
      SideMembers(ChangedIn(before, after), t);
      SideMembers(ChangedIn(after, before), t);
      if c :| c in ChangedIn(before, after) && c.after == t {
        ChangeMembers(before, after, c);
        ChangeMembers(after, before, Mirrored(c));
      }
      if c :| c in ChangedIn(after, before) && c.before == t {
        ChangeMembers(after, before, c);
        ChangeMembers(before, after, Mirrored(c));
        assert Mirrored(c) in ChangedIn(before, after);
      }
    }
    SameMembers(Afters(ChangedIn(before, after)), Befores(ChangedIn(after, before)));
  }

  /** Each transition of the version after is added, changed or unchanged, exactly once. */
  lemma EachAfterOnce(before: seq<Transition>, after: seq<Transition>)
    requires DistinctIds(before) && DistinctIds(after)
    ensures var diff := DiffOf(before, after);
            multiset(after) == multiset(diff.added) + multiset(Afters(diff.changed)) +
              multiset(UnchangedIn(after, before))
  {
    var removed, added := MissingFrom(before, after), MissingFrom(after, before);
    ThreeWays(after, before);
    ChangedSides(before, after);
    AddedAreKept(removed, added);
    SidesJoin(ChangedIn(before, after), Paired(removed, added));
  }

  lemma {:induction false} UnchangedMembers(ts: seq<Transition>, other: seq<Transition>, t: Transition)
    ensures t in UnchangedIn(ts, other) <==> t in ts && Kept(t, other)
  {
    if ts != [] {
      assert ts == ts[..|ts| - 1] + [ts[|ts| - 1]];
      UnchangedMembers(ts[..|ts| - 1], other, t);
      KeptPartner(ts[|ts| - 1], other);
    }
  }

  /** The other side has a transition with the same id that is reached and works the same. */
  predicate Kept(t: Transition, other: seq<Transition>) {
    exists i :: 0 <= i < |other| && other[i].id == t.id && SameGuard(other[i], t) && SameWork(other[i], t) &&
      forall j :: 0 <= j < i ==> other[j].id != t.id
  }

  lemma KeptPartner(t: Transition, other: seq<Transition>)
    ensures Kept(t, other) <==> HasId(other, t.id) && !Differs(t, other)
  {
    if HasId(other, t.id) {
      SameBehaviour(t, Partner(t, other));
    }
    if Kept(t, other) {
      var i :| 0 <= i < |other| && other[i].id == t.id && SameGuard(other[i], t) && SameWork(other[i], t) &&
        forall j :: 0 <= j < i ==> other[j].id != t.id;
      assert HasId(other, t.id) && PlaceOf(other, t.id) == i;
    }
  }

  predicate ExactlyOne(a: bool, b: bool, c: bool) {
    (a || b || c) && !(a && b) && !(a && c) && !(b && c)
  }

  lemma CountsOfOne(whole: seq<Transition>, a: seq<Transition>, b: seq<Transition>, c: seq<Transition>, t: Transition)
    requires DistinctIds(whole) && t in whole && multiset(whole) == multiset(a) + multiset(b) + multiset(c)
    ensures ExactlyOne(t in a, t in b, t in c)
  {
    DistinctCount(whole, t);
    assert multiset(a)[t] + multiset(b)[t] + multiset(c)[t] == 1;
    assert t in a <==> multiset(a)[t] > 0;
    assert t in b <==> multiset(b)[t] > 0;
    assert t in c <==> multiset(c)[t] > 0;
  }

  /** A transition before is removed, or changed, or the version after keeps it, and never two of these. */
  lemma BeforeIsOneOf(before: seq<Transition>, after: seq<Transition>, t: Transition)
    requires DistinctIds(before) && t in before
    ensures ExactlyOne(t in DiffOf(before, after).removed, t in Befores(DiffOf(before, after).changed), Kept(t, after))
  {
    var diff := DiffOf(before, after);
    EachBeforeOnce(before, after);
    CountsOfOne(before, diff.removed, Befores(diff.changed), UnchangedIn(before, after), t);
    UnchangedMembers(before, after, t);
  }

  /** A transition after is added, or changed, or the version before had it, and never two of these. */
  lemma AfterIsOneOf(before: seq<Transition>, after: seq<Transition>, t: Transition)
    requires DistinctIds(before) && DistinctIds(after) && t in after
    ensures ExactlyOne(t in DiffOf(before, after).added, t in Afters(DiffOf(before, after).changed), Kept(t, before))
  {
    var diff := DiffOf(before, after);
    EachAfterOnce(before, after);
    CountsOfOne(after, diff.added, Afters(diff.changed), UnchangedIn(after, before), t);
    UnchangedMembers(after, before, t);
  }

  // ------------------------------------------------------------------- swapping

  function MirroredAll(changes: seq<Change>): (r: seq<Change>)
    ensures |r| == |changes| && forall k :: 0 <= k < |r| ==> r[k] == Mirrored(changes[k])
  {
    if changes == [] then [] else [Mirrored(changes[0])] + MirroredAll(changes[1..])
  }

  lemma ChangesDistinct(before: seq<Transition>, after: seq<Transition>)
    requires DistinctIds(before)
    ensures Distinct(DiffOf(before, after).changed)
  {
    var changes := DiffOf(before, after).changed;
    EachBeforeOnce(before, after);
    PartDistinct(Befores(changes), before);
    SidesAt(changes);
    forall i, j | 0 <= i < j < |changes|
      ensures changes[i] != changes[j]
    {
      assert Befores(changes)[i] != Befores(changes)[j];
    }
  }

  lemma ChangeMirrored(before: seq<Transition>, after: seq<Transition>, c: Change)
    requires DistinctIds(before) && DistinctIds(after)
    ensures c in DiffOf(before, after).changed <==> Mirrored(c) in DiffOf(after, before).changed
  {
    ChangeMembers(before, after, c);
    ChangeMembers(after, before, Mirrored(c));
    PairedMirrored(MissingFrom(before, after), MissingFrom(after, before), c);
  }

  /** Swapping the versions mirrors the diff, up to the order of the changes. */
  lemma DiffMirrored(before: seq<Transition>, after: seq<Transition>)
    requires DistinctIds(before) && DistinctIds(after)
    ensures DiffOf(after, before).added == DiffOf(before, after).removed
    ensures DiffOf(after, before).removed == DiffOf(before, after).added
    ensures multiset(DiffOf(after, before).changed) == multiset(MirroredAll(DiffOf(before, after).changed))
  {
    var there, back := MirroredAll(DiffOf(before, after).changed), DiffOf(after, before).changed;
    ChangesDistinct(before, after);
    ChangesDistinct(after, before);
    forall c
      ensures c in there <==> c in back
    {
      ChangeMirrored(before, after, Mirrored(c));
      if Mirrored(c) in DiffOf(before, after).changed {
        var k :| 0 <= k < |there| && DiffOf(before, after).changed[k] == Mirrored(c);
        assert there[k] == c;
      }
    }
    SameMembers(there, back);
  }

  // ------------------------------------------------------------- the diff by fields

  /** How many of the transitions have an id the other side does not have, and work as `t` does. */
  function Alike(ts: seq<Transition>, other: seq<Transition>, t: Transition): nat {
    if ts == [] then 0 else
      var front, last := ts[..|ts| - 1], ts[|ts| - 1];
      Alike(front, other, t) + if !HasId(other, last.id) && SameWork(last, t) then 1 else 0
  }

  lemma {:induction false} AlikeAreCounted(ts: seq<Transition>, other: seq<Transition>, t: Transition)
    ensures Count(MissingFrom(ts, other), OutcomeOf(t)) == Alike(ts, other, t)
  {
    if ts != [] {
      var front, last := ts[..|ts| - 1], ts[|ts| - 1];
      AlikeAreCounted(front, other, t);
      SameOutcome(last, t);
      var missing := MissingFrom(front, other);
      assert (missing + [last])[..|missing|] == missing;
    }
  }

  /** Where a transition is among those the other side does not have: after those before it. */
  lemma {:induction false} MissingAt(ts: seq<Transition>, other: seq<Transition>, i: nat)
    requires i < |ts| && !HasId(other, ts[i].id)
    ensures var all, k := MissingFrom(ts, other), |MissingFrom(ts[..i], other)|;
            k < |all| && all[k] == ts[i] && all[..k] == MissingFrom(ts[..i], other)
  {
    var n := |ts| - 1;
    if i < n {
      MissingAt(ts[..n], other, i);
      assert ts[..n][..i] == ts[..i] && ts[..n][i] == ts[i];
    } else {
      assert ts[..i] == ts[..n];
    }
  }

  lemma {:induction false} MissingMembers(ts: seq<Transition>, other: seq<Transition>, t: Transition)
    ensures t in MissingFrom(ts, other) <==> t in ts && !HasId(other, t.id)
  {
    if ts != [] {
      assert ts == ts[..|ts| - 1] + [ts[|ts| - 1]];
      MissingMembers(ts[..|ts| - 1], other, t);
    }
  }

  lemma {:induction false} MissingDistinct(ts: seq<Transition>, other: seq<Transition>)
    requires DistinctIds(ts)
    ensures DistinctIds(MissingFrom(ts, other))
  {
    if ts != [] {
      var front, last := ts[..|ts| - 1], ts[|ts| - 1];
      MissingDistinct(front, other);
      var missing := MissingFrom(front, other);
      forall k | 0 <= k < |missing|
        ensures missing[k].id != last.id
      {
        MissingMembers(front, other, missing[k]);
        assert missing[k] in missing;
        var m :| 0 <= m < |front| && front[m] == missing[k];
        assert ts[m] == front[m];
      }
    }
  }

  /** A transition is left over exactly when as many of its outcome come before it as the other side has. */
  lemma {:induction false} LeftoverAt(ts: seq<Transition>, other: seq<Transition>, k: nat)
    requires k < |ts| && DistinctIds(ts)
    ensures ts[k] in Leftover(ts, other) <==> Count(ts[..k], OutcomeOf(ts[k])) >= Count(other, OutcomeOf(ts[k]))
  {
    var n := |ts| - 1;
    var front := ts[..n];
    LeftoverAreThere(front, other);
    assert forall m :: 0 <= m < n ==> front[m] == ts[m] && front[m].id != ts[n].id;
    if k < n {
      LeftoverAt(front, other, k);
      assert front[..k] == ts[..k];
    } else {
      assert ts[n] !in front;
    }
  }

  lemma {:induction false} LeftoverAreThere(ts: seq<Transition>, other: seq<Transition>)
    ensures forall t :: t in Leftover(ts, other) ==> t in ts
  {
    if ts != [] {
      assert ts == ts[..|ts| - 1] + [ts[|ts| - 1]];
      LeftoverAreThere(ts[..|ts| - 1], other);
    }
  }

  lemma PairedAt(a: seq<Transition>, b: seq<Transition>, i: nat, j: nat)
    requires DistinctIds(a) && DistinctIds(b) && i < |a| && j < |b|
    ensures Change(a[i], b[j]) in Paired(a, b) <==>
            SameWork(a[i], b[j]) && Count(a[..i], OutcomeOf(a[i])) == Count(b[..j], OutcomeOf(b[j]))
  {
    SameOutcome(a[i], b[j]);
    if Change(a[i], b[j]) in Paired(a, b) {
      var i', j' := PairedHasRank(a, b, Change(a[i], b[j]));
      assert a[i].id == a[i'].id && b[j].id == b[j'].id;
      assert i' == i && j' == j;
    }
    if SameRank(a, i, b, j) { RankIsPaired(a, b, i, j); }
  }

  lemma {:induction false} PairedAreThere(a: seq<Transition>, b: seq<Transition>, c: Change)
    requires c in Paired(a, b)
    ensures c.before in a && c.after in b
  {
    var i, j := PairedHasRank(a, b, c);
  }

  /** Two transitions are reported as a change exactly when they share an id and differ in guard or work, or have no
      partner by id, work the same, and as many that work so come before each of them. */
  lemma ChangedExactly(before: seq<Transition>, after: seq<Transition>, i: nat, j: nat)
    requires DistinctIds(before) && DistinctIds(after) && i < |before| && j < |after|
    ensures Change(before[i], after[j]) in DiffOf(before, after).changed <==>
            if before[i].id == after[j].id
            then !(SameGuard(before[i], after[j]) && SameWork(before[i], after[j]))
            else && !HasId(after, before[i].id) && !HasId(before, after[j].id)
                 && SameWork(before[i], after[j])
                 && Alike(before[..i], after, before[i]) == Alike(after[..j], before, after[j])
  {
    var c, b, a := Change(before[i], after[j]), MissingFrom(before, after), MissingFrom(after, before);
    ChangeMembers(before, after, c);
    if before[i].id == after[j].id {
      SameBehaviour(before[i], after[j]);
      assert HasId(after, before[i].id);
      if c in Paired(b, a) {
        PairedAreThere(b, a, c);
        MissingMembers(before, after, c.before);
        assert false;
      }
    } else if HasId(after, before[i].id) || HasId(before, after[j].id) {
      if c in Paired(b, a) {
        PairedAreThere(b, a, c);
        MissingMembers(before, after, c.before);
        MissingMembers(after, before, c.after);
        assert false;
      }
    } else {
      PairedExactly(before, after, i, j);
    }
  }

  lemma PairedExactly(before: seq<Transition>, after: seq<Transition>, i: nat, j: nat)
    requires DistinctIds(before) && DistinctIds(after) && i < |before| && j < |after|
    requires !HasId(after, before[i].id) && !HasId(before, after[j].id)
    ensures Change(before[i], after[j]) in Paired(MissingFrom(before, after), MissingFrom(after, before)) <==>
            && SameWork(before[i], after[j])
            && Alike(before[..i], after, before[i]) == Alike(after[..j], before, after[j])
  {
    MissingAt(before, after, i);
    MissingAt(after, before, j);
    MissingDistinct(before, after);
    MissingDistinct(after, before);
    AlikeAreCounted(before[..i], after, before[i]);
    AlikeAreCounted(after[..j], before, after[j]);
    PairedAt(MissingFrom(before, after), MissingFrom(after, before), |MissingFrom(before[..i], after)|,
             |MissingFrom(after[..j], before)|);
  }

  /** A transition is reported as removed exactly when the version after has nothing with its id, and no more that
      work as it does, new there, than come before it. */
  lemma RemovedExactly(before: seq<Transition>, after: seq<Transition>, i: nat)
    requires DistinctIds(before) && i < |before|
    ensures before[i] in DiffOf(before, after).removed <==>
            !HasId(after, before[i].id) && Alike(before[..i], after, before[i]) >= Alike(after, before, before[i])
  {
    LeftoverExactly(before, after, i);
  }

  /** The same of a transition reported as added. */
  lemma AddedExactly(before: seq<Transition>, after: seq<Transition>, j: nat)
    requires DistinctIds(after) && j < |after|
    ensures after[j] in DiffOf(before, after).added <==>
            !HasId(before, after[j].id) && Alike(after[..j], before, after[j]) >= Alike(before, after, after[j])
  {
    LeftoverExactly(after, before, j);
  }

  lemma LeftoverExactly(ts: seq<Transition>, other: seq<Transition>, i: nat)
    requires DistinctIds(ts) && i < |ts|
    ensures ts[i] in Leftover(MissingFrom(ts, other), MissingFrom(other, ts)) <==>
            !HasId(other, ts[i].id) && Alike(ts[..i], other, ts[i]) >= Alike(other, ts, ts[i])
  {
    var missing := MissingFrom(ts, other);
    if HasId(other, ts[i].id) {
      LeftoverAreThere(missing, MissingFrom(other, ts));
      MissingMembers(ts, other, ts[i]);
    } else {
      MissingAt(ts, other, i);
      MissingDistinct(ts, other);
      AlikeAreCounted(ts[..i], other, ts[i]);
      AlikeAreCounted(other, ts, ts[i]);
      LeftoverAt(missing, MissingFrom(other, ts), |MissingFrom(ts[..i], other)|);
    }
  }

  /** No later transition has its id. */
  predicate IsLast(ts: seq<Transition>, t: Transition) {
    exists i :: 0 <= i < |ts| && ts[i] == t && forall j :: i < j < |ts| ==> ts[j].id != t.id
  }

  /** An entry is the last transition with its id. */
  lemma {:induction false} ByIdIsLast(ts: seq<Transition>, t: Transition)
    ensures t in ById(ts) <==> IsLast(ts, t)
  {
    if ts != [] {
      var front, last := ts[..|ts| - 1], ts[|ts| - 1];
      assert ts == front + [last];
      ByIdIsLast(front, t);
      ByIdIds(front);
      KeyedMembers(ById(front), last, t);
      LastOfMore(front, last, t);
    }
  }

  /** The ids of the entries are in the order they first appear. */
  lemma {:induction false} ByIdInOrder(ts: seq<Transition>)
    ensures Ids(ById(ts)) == Unique(Ids(ts))
  {
    if ts != [] {
      var front, last := ts[..|ts| - 1], ts[|ts| - 1];
      assert ts == front + [last];
      ByIdInOrder(front);
      IdsSnoc(front, last);
      UniqueMore(Ids(front), last.id);
      KeyedInOrder(ById(front), last);
    }
  }

  lemma LastOfMore(front: seq<Transition>, last: Transition, t: Transition)
    ensures IsLast(front + [last], t) <==> t == last || (last.id != t.id && IsLast(front, t))
  {
    var ts := front + [last];
    assert ts[|front|] == last && forall k :: 0 <= k < |front| ==> ts[k] == front[k];
    if last.id != t.id && IsLast(front, t) {
      var i :| 0 <= i < |front| && front[i] == t && forall j :: i < j < |front| ==> front[j].id != t.id;
      assert ts[i] == t && forall j :: i < j < |ts| ==> ts[j].id != t.id;
    }
    if IsLast(ts, t) {
      var i :| 0 <= i < |ts| && ts[i] == t && forall j :: i < j < |ts| ==> ts[j].id != t.id;
      if i < |front| {
        assert front[i] == t && forall j :: i < j < |front| ==> front[j].id == ts[j].id;
        assert ts[|front|].id != t.id;
      }
    }
  }

  lemma KeyedMembers(entries: seq<Transition>, last: Transition, t: Transition)
    requires DistinctIds(entries)
    ensures t in Keyed(entries, last) <==> t == last || (last.id != t.id && t in entries)
  {
    var at := PlaceOf(entries, last.id);
    if at < |entries| {
      var keyed := entries[at := last];
      if t in entries && last.id != t.id {
        var i :| 0 <= i < |entries| && entries[i] == t;
        assert keyed[i] == t;
      }
      if t in keyed {
        var i :| 0 <= i < |keyed| && keyed[i] == t;
        assert i != at ==> entries[i] == t && entries[i].id != entries[at].id;
      }
      assert keyed[at] == last;
    } else if t in entries {
      var i :| 0 <= i < |entries| && entries[i] == t;
    }
  }

  lemma IdsSnoc(ts: seq<Transition>, t: Transition)
    ensures Ids(ts + [t]) == Ids(ts) + [t.id]
  {
  }

  lemma KeyedInOrder(entries: seq<Transition>, t: Transition)
    ensures Ids(Keyed(entries, t)) == if t.id in Ids(entries) then Ids(entries) else Ids(entries) + [t.id]
  {
    var at := PlaceOf(entries, t.id);
    if at < |entries| {
      assert Ids(entries[at := t]) == Ids(entries);
    } else {
      IdsSnoc(entries, t);
    }
  }

  // ---------------------------------------------------------------- nothing changed

  /** Each transition has a partner on the other side that does the same, wherever in its file it is. */
  predicate AllKept(ts: seq<Transition>, other: seq<Transition>) {
    forall i :: 0 <= i < |ts| ==> Kept(ts[i], other)
  }

  lemma {:induction false} AllKeptParts(ts: seq<Transition>, other: seq<Transition>)
    ensures AllKept(ts, other) <==> MissingFrom(ts, other) == [] && ChangedIn(ts, other) == []
  {
    if ts != [] {
      assert ts == ts[..|ts| - 1] + [ts[|ts| - 1]];
      AllKeptParts(ts[..|ts| - 1], other);
      KeptPartner(ts[|ts| - 1], other);
    }
  }

  /** The diff is empty exactly when each side's transitions do what the other's with their ids do. */
  lemma DiffIsEmpty(before: seq<Transition>, after: seq<Transition>)
    requires DistinctIds(before) && DistinctIds(after)
    ensures DiffOf(before, after) == SummaryDiff([], [], []) <==> AllKept(before, after) && AllKept(after, before)
  {
    var removed, added := MissingFrom(before, after), MissingFrom(after, before);
    AllKeptParts(before, after);
    AllKeptParts(after, before);
    RemovedAreKept(removed, added);
    AddedAreKept(removed, added);
    SidesJoin(ChangedIn(before, after), Paired(removed, added));
    ChangedSides(before, after);
    ChangedSides(after, before);
    SidesAt(ChangedIn(before, after));
    SidesAt(ChangedIn(after, before));
    if DiffOf(before, after) == SummaryDiff([], [], []) {
      assert Paired(removed, added) == [] && ChangedIn(before, after) == [];
      assert multiset(removed) == multiset{} && multiset(added) == multiset{};
      assert |multiset(removed)| == |removed| && |multiset(added)| == |added|;
      assert |multiset(Befores(ChangedIn(after, before)))| == 0;
    }
  }
}
