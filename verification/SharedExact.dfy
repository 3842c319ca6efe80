/** How much the sharing writer shares, and in which order it numbers and refers. */
module SharedExact {
  import opened Json
  import opened Sequences
  import opened SharedSurvey
  import opened SharedWriter
  import opened SharedReader
  import opened SharedRoundTrip

  /** What a reader meets as it goes: a definition once its value is complete, or a reference. */
  datatype Event = Defines(number: string) | Refers(number: string)

  function Events(tree: Value): seq<Event>
    decreases tree, 1
  {
    if tree.Primitive? then []
    else if IsReference(tree) then [Refers(tree.items[0].atom.literal)]
    else if IsDefinition(tree) then
      var at := ValueAt(tree.names);
      Events(tree.items[at]) + [Defines(tree.items[1 - at].atom.literal)]
    else EventsOfAll(tree.items)
  }

  function EventsOfAll(trees: seq<Value>): seq<Event>
    decreases trees, 0
  {
    if trees == [] then [] else Events(trees[0]) + EventsOfAll(trees[1..])
  }

  function Definitions(events: seq<Event>): nat {
    if events == [] then 0 else (if events[0].Defines? then 1 else 0) + Definitions(events[1..])
  }

  predicate NumberIn(number: string, last: nat) {
    exists id :: 1 <= id <= last && number == NatText(id)
  }

  /** With `last` definitions read, the next ones are numbered from `last + 1` in order,
      and each reference is to a number already defined. */
  predicate InOrder(events: seq<Event>, last: nat) {
    events != [] ==>
      match events[0]
      case Defines(number) => number == NatText(last + 1) && InOrder(events[1..], last + 1)
      case Refers(number) => NumberIn(number, last) && InOrder(events[1..], last)
  }

  lemma {:induction false} InOrderBoth(before: seq<Event>, after: seq<Event>, last: nat)
    ensures Definitions(before + after) == Definitions(before) + Definitions(after)
    ensures InOrder(before + after, last) <==> InOrder(before, last) && InOrder(after, last + Definitions(before))
  {
    if before == [] {
      assert before + after == after;
    } else {
      assert (before + after)[1..] == before[1..] + after;
      InOrderBoth(before[1..], after, if before[0].Defines? then last + 1 else last);
    }
  }

  lemma {:induction false} NoEvents(v: Value)
    requires NoneReserved(v)
    ensures Events(v) == []
    decreases v, 1
  {
    if v.Container? { NoEventsInAll(v.items); }
  }

  lemma {:induction false} NoEventsInAll(vs: seq<Value>)
    requires forall i :: 0 <= i < |vs| ==> NoneReserved(vs[i])
    ensures EventsOfAll(vs) == []
    decreases vs, 0
  {
    if vs != [] {
      NoEvents(vs[0]);
      NoEventsInAll(vs[1..]);
    }
  }

  /** What a fresh value's tree adds to its items' events. */
  lemma FreshEvents(digest: Value -> Digest, all: Counts, v: Value, top: bool, inner: State, trees: seq<Value>)
    requires v.Container? && NoneReserved(v) && SamePrimitives(v.items, trees)
    ensures Events(FreshTree(digest, all, v, top, inner, trees)) ==
            EventsOfAll(trees) +
            if top || Count(all, digest(v).key) <= 1 then [] else [Defines(NatText(|inner.written| + 1))]
  {
    BodyNotReserved(v, trees);
    var body := Container(v.names, trees);
    assert Events(body) == EventsOfAll(trees);
    assert ValueAt(Definition(|inner.written| + 1, body).names) == 1 by {
      assert Definition(|inner.written| + 1, body).names.names[0] == "$def";
    }
    assert EventsOfAll(trees) + [] == EventsOfAll(trees);
  }

  /** The events of a tree are in order, and count the definitions it adds. */
  ghost predicate Numbered(events: seq<Event>, st: State, st': State) {
    InOrder(events, |st.written|) && |st'.written| == |st.written| + Definitions(events)
  }

  lemma {:induction false} TreeInOrder(digest: Value -> Digest, all: Counts, v: Value, top: bool, st: State,
                                       open: set<Key>)
    requires Agree(digest, all, st, open) && NoneReserved(v)
    ensures Numbered(Events(TreeOf(digest, all, v, top, st.counts, st.written)), st, After(digest, all, v, top, st))
    decreases v, 1
  {
    AfterValue(digest, all, v, top, st);
    NoEvents(v);
    if Shareable(v) {
      if top || digest(v).key !in st.seen {
        FreshInOrder(digest, all, v, top, st, open);
      } else {
        RepeatInOrder(digest, all, v, st, open);
      }
    }
  }

  lemma RepeatInOrder(digest: Value -> Digest, all: Counts, v: Value, st: State, open: set<Key>)
    requires Agree(digest, all, st, open) && NoneReserved(v) && Shareable(v) && digest(v).key in st.seen
    ensures Numbered(Events(TreeOf(digest, all, v, false, st.counts, st.written)), st, After(digest, all, v, false, st))
  {
    AfterValue(digest, all, v, false, st);
    NoEvents(v);
    var tree, key := TreeOf(digest, all, v, false, st.counts, st.written), digest(v).key;
    if key in st.written && st.written[key].check == digest(v).check {
      assert tree == Reference(st.written[key].id);
      var number := NatText(st.written[key].id);
      assert Events(tree) == [Refers(number)] && [Refers(number)][1..] == [];
      assert NumberIn(number, |st.written|);
    } else {
      assert tree == v;
    }
  }

  lemma OneDefinition(last: nat)
    ensures Definitions([Defines(NatText(last + 1))]) == 1 && InOrder([Defines(NatText(last + 1))], last)
  {
    var events := [Defines(NatText(last + 1))];
    assert events[1..] == [];
  }

  lemma OneMoreDefined(events: seq<Event>, first: State, inner: State, more: seq<Event>)
    requires Numbered(events, first, inner)
    requires more == [] || more == [Defines(NatText(|inner.written| + 1))]
    ensures InOrder(events + more, |first.written|)
    ensures |first.written| + Definitions(events + more) == |inner.written| + |more|
  {
    if more == [] {
      assert events + more == events;
    } else {
      OneDefinition(|inner.written|);
      InOrderBoth(events, more, |first.written|);
    }
  }

  lemma {:induction false} FreshInOrder(digest: Value -> Digest, all: Counts, v: Value, top: bool, st: State,
                                        open: set<Key>)
    requires Agree(digest, all, st, open) && NoneReserved(v)
    requires Shareable(v) && (top || digest(v).key !in st.seen)
    ensures Numbered(Events(TreeOf(digest, all, v, top, st.counts, st.written)), st, After(digest, all, v, top, st))
    decreases v, 0
  {
    var first := if top then st else Opened(digest, v, st);
    var inner := AfterAll(digest, all, v.items, false, first);
    var trees := TreesOf(digest, all, v.items, false, first.counts, first.written);
    FreshParts(digest, all, v, top, st, first, inner, trees);
    PrimitivesStay(digest, v.items, SurveyAll(digest, v.items, false, first.counts).0, false, all, first.written);
    FreshEvents(digest, all, v, top, inner, trees);
    var open' := if top then open else open + {digest(v).key};
    if !top { OpenedAgrees(digest, all, v, st, open); }
    AllInOrder(digest, all, v.items, false, first, open');
    AllSharingAgrees(digest, all, v.items, false, first, open');
    if !top { ClosedGrows(digest, all, v, st, inner); }
    var more := if top || Count(all, digest(v).key) <= 1 then [] else [Defines(NatText(|inner.written| + 1))];
    OneMoreDefined(EventsOfAll(trees), first, inner, more);
    assert |first.written| == |st.written| && |After(digest, all, v, top, st).written| == |inner.written| + |more|;
  }

  lemma {:induction false} AllInOrder(digest: Value -> Digest, all: Counts, vs: seq<Value>, top: bool, st: State,
                                      open: set<Key>)
    requires Agree(digest, all, st, open) && (forall i :: 0 <= i < |vs| ==> NoneReserved(vs[i]))
    ensures Numbered(EventsOfAll(TreesOf(digest, all, vs, top, st.counts, st.written)), st,
                     AfterAll(digest, all, vs, top, st))
    decreases vs, 0
  {
    if vs != [] {
      var between := After(digest, all, vs[0], top, st);
      AfterFirst(digest, all, vs, top, st);
      TreesFirst(digest, all, vs, top, st);
      SharingAgrees(digest, all, vs[0], top, st, open);
      TreeInOrder(digest, all, vs[0], top, st, open);
      AllInOrder(digest, all, vs[1..], top, between, open);
      NumberedBoth(TreeOf(digest, all, vs[0], top, st.counts, st.written),
                   TreesOf(digest, all, vs[1..], top, between.counts, between.written),
                   st, between, AfterAll(digest, all, vs, top, st));
    }
  }

  lemma NumberedBoth(tree: Value, rest: seq<Value>, st: State, between: State, st': State)
    requires Numbered(Events(tree), st, between) && Numbered(EventsOfAll(rest), between, st')
    ensures Numbered(EventsOfAll([tree] + rest), st, st')
  {
    assert ([tree] + rest)[1..] == rest;
    InOrderBoth(Events(tree), EventsOfAll(rest), |st.written|);
  }

  /** Whatever the digests, definitions are numbered 1, 2, 3 and so on in the order they are completed,
      and each is complete before any reference to it. */
  lemma DefinedInOrder(digest: Value -> Digest, summaries: seq<Value>)
    requires forall i :: 0 <= i < |summaries| ==> NoneReserved(summaries[i])
    ensures var (trees, written) := Shared(digest, summaries);
            InOrder(EventsOfAll(trees), 0) && Definitions(EventsOfAll(trees)) == |written|
  {
    AllInOrder(digest, SurveyAll(digest, summaries, true, map[]).1, summaries, true, NOTHING_WRITTEN, {});
  }

  // --------------------------------------------- sharing without collisions

  /** No two different values a write may share have one key. */
  ghost predicate KeysApart(digest: Value -> Digest, values: set<Value>) {
    forall a, b :: a in values && b in values && Shareable(a) && Shareable(b) && digest(a).key == digest(b).key ==>
      a == b
  }

  /** The values a tree writes in full that are long enough to share, whole summaries aside. */
  function InFull(v: Value, tree: Value, top: bool): seq<Value>
    decreases v, 1
  {
    if v.Primitive? || IsReference(tree) then [] else
      var body := if IsDefinition(tree) then tree.items[ValueAt(tree.names)] else tree;
      (if Shareable(v) && !top then [v] else []) +
      AllInFull(v.items, if body.Container? then body.items else [], false)
  }

  function AllInFull(vs: seq<Value>, trees: seq<Value>, top: bool): seq<Value>
    decreases vs, 0
  {
    if vs == [] || trees == [] then [] else
      InFull(vs[0], trees[0], top) + AllInFull(vs[1..], trees[1..], top)
  }

  lemma {:induction false} NothingLargeInside(vs: seq<Value>, trees: seq<Value>)
    requires SizeOfAll(vs) <= SHARED_MIN_CHARS
    ensures AllInFull(vs, trees, false) == []
    decreases vs
  {
    if vs != [] && trees != [] {
      var v, tree := vs[0], trees[0];
      if v.Container? && !IsReference(tree) {
        var body := if IsDefinition(tree) then tree.items[ValueAt(tree.names)] else tree;
        NothingLargeInside(v.items, if body.Container? then body.items else []);
      }
      NothingLargeInside(vs[1..], trees[1..]);
    }
  }

  /** What writing some values adds: each value in full is new, and has a key of its own;
      each value counted again is referred to; and each definition is one of the table's. */
  ghost predicate Adds(digest: Value -> Digest, full: seq<Value>, events: seq<Event>, st: State, st': State) {
    FullIsNew(digest, full, st, st') && Distinct(full) && AgainIsReferred(events, st, st') &&
      DefinesWritten(events, st')
  }

  ghost predicate FullIsNew(digest: Value -> Digest, full: seq<Value>, st: State, st': State) {
    forall i :: 0 <= i < |full| ==> digest(full[i]).key in st'.seen && digest(full[i]).key !in st.seen
  }

  ghost predicate AgainIsReferred(events: seq<Event>, st: State, st': State) {
    forall k :: k in st'.counts && st'.counts[k] >= 2 && Count(st.counts, k) < st'.counts[k] ==>
      k in st'.written && Refers(NatText(st'.written[k].id)) in events
  }

  ghost predicate DefinesWritten(events: seq<Event>, st': State) {
    forall i :: 0 <= i < |events| && events[i].Defines? ==>
      exists k :: k in st'.written && events[i].number == NatText(st'.written[k].id)
  }

  lemma AddsBoth(digest: Value -> Digest, full: seq<Value>, more: seq<Value>, events: seq<Event>, later: seq<Event>,
                 st: State, between: State, st': State)
    requires Adds(digest, full, events, st, between) && Adds(digest, more, later, between, st')
    requires Grows(st, between) && Grows(between, st')
    ensures Adds(digest, full + more, events + later, st, st')
  {
    forall k | k in st'.counts && st'.counts[k] >= 2 && Count(st.counts, k) < st'.counts[k]
      ensures k in st'.written && Refers(NatText(st'.written[k].id)) in events + later
    {
      if Count(between.counts, k) == st'.counts[k] {
        assert Refers(NatText(between.written[k].id)) in events;
      } else {
        assert Refers(NatText(st'.written[k].id)) in later;
      }
    }
    forall i | 0 <= i < |events + later| && (events + later)[i].Defines?
      ensures exists k :: k in st'.written && (events + later)[i].number == NatText(st'.written[k].id)
    {
      if i < |events| {
        var k :| k in between.written && events[i].number == NatText(between.written[k].id);
        assert st'.written[k] == between.written[k];
      } else {
        var k :| k in st'.written && later[i - |events|].number == NatText(st'.written[k].id);
      }
    }
  }

  /** The event of a definition completed, when the value is met again. */
  function Closing(digest: Value -> Digest, all: Counts, v: Value, inner: State): seq<Event> {
    if Count(all, digest(v).key) <= 1 then [] else [Defines(NatText(|inner.written| + 1))]
  }

  lemma AddsClosed(digest: Value -> Digest, all: Counts, v: Value, full: seq<Value>, events: seq<Event>, st: State,
                   inner: State)
    requires Shareable(v) && digest(v).key !in st.seen && digest(v).key !in st.counts && digest(v).key !in st.written
    requires Adds(digest, full, events, Opened(digest, v, st), inner) && Grows(Opened(digest, v, st), inner)
    requires digest(v).key !in inner.written
    ensures Adds(digest, [v] + full, events + Closing(digest, all, v, inner), st, Closed(digest, all, v, inner))
  {
    var st1 := Opened(digest, v, st);
    assert digest(v).key in st1.seen && digest(v).key in st1.counts;
    ClosedFull(digest, all, v, full, st, inner);
    ClosedRefers(digest, all, v, events, st, inner);
    ClosedDefines(digest, all, v, events, inner);
  }

  lemma ClosedFull(digest: Value -> Digest, all: Counts, v: Value, full: seq<Value>, st: State, inner: State)
    requires digest(v).key !in st.seen && digest(v).key in inner.seen
    requires FullIsNew(digest, full, Opened(digest, v, st), inner) && Distinct(full)
    ensures FullIsNew(digest, [v] + full, st, Closed(digest, all, v, inner)) && Distinct([v] + full)
  {
    var st1 := Opened(digest, v, st);
    forall i | 0 <= i < |full|
      ensures full[i] != v && digest(full[i]).key in inner.seen && digest(full[i]).key !in st.seen
    {
      assert digest(full[i]).key !in st1.seen;
    }
  }

  lemma ClosedRefers(digest: Value -> Digest, all: Counts, v: Value, events: seq<Event>, st: State, inner: State)
    requires digest(v).key !in st.counts && digest(v).key !in inner.written
    requires AgainIsReferred(events, Opened(digest, v, st), inner)
    ensures AgainIsReferred(events + Closing(digest, all, v, inner), st, Closed(digest, all, v, inner))
  {
    var closed, more := Closed(digest, all, v, inner), Closing(digest, all, v, inner);
    forall k | k in closed.counts && closed.counts[k] >= 2 && Count(st.counts, k) < closed.counts[k]
      ensures k in closed.written && Refers(NatText(closed.written[k].id)) in events + more
    {
      assert Count(Opened(digest, v, st).counts, k) < inner.counts[k];
      assert k != digest(v).key && Refers(NatText(inner.written[k].id)) in events;
    }
  }

  lemma ClosedDefines(digest: Value -> Digest, all: Counts, v: Value, events: seq<Event>, inner: State)
    requires digest(v).key !in inner.written && DefinesWritten(events, inner)
    ensures DefinesWritten(events + Closing(digest, all, v, inner), Closed(digest, all, v, inner))
  {
    var key, closed, more := digest(v).key, Closed(digest, all, v, inner), Closing(digest, all, v, inner);
    forall i | 0 <= i < |events + more| && (events + more)[i].Defines?
      ensures exists k :: k in closed.written && (events + more)[i].number == NatText(closed.written[k].id)
    {
      if i < |events| {
        assert (events + more)[i] == events[i];
        var k :| k in inner.written && events[i].number == NatText(inner.written[k].id);
        assert closed.written[k] == inner.written[k];
      } else {
        assert closed.written[key].id == |inner.written| + 1;
      }
    }
  }

  ghost predicate Unclashed(digest: Value -> Digest, all: Counts, values: set<Value>, st: State, open: set<Key>,
                            size: nat)
  {
    Agree(digest, all, st, open) && Inside(open, st, size) && SeenIn(st.seen, values)
  }

  ghost predicate TreeAddsTo(digest: Value -> Digest, v: Value, tree: Value, top: bool, st: State, st': State) {
    Adds(digest, InFull(v, tree, top), Events(tree), st, st')
  }

  ghost predicate TreesAddTo(digest: Value -> Digest, vs: seq<Value>, trees: seq<Value>, top: bool, st: State,
                             st': State)
  {
    Adds(digest, AllInFull(vs, trees, top), EventsOfAll(trees), st, st')
  }

  /** What a list needs is what its first value needs, and then what the rest need. */
  lemma UnclashedFirst(digest: Value -> Digest, all: Counts, values: set<Value>, vs: seq<Value>, top: bool, st: State,
                       open: set<Key>)
    requires vs != [] && Unclashed(digest, all, values, st, open, SizeOfAll(vs)) && PartsOfAll(vs) <= values
    ensures Unclashed(digest, all, values, st, open, Size(vs[0]))
    ensures Unclashed(digest, all, values, After(digest, all, vs[0], top, st), open, SizeOfAll(vs[1..]))
  {
    SharingAgrees(digest, all, vs[0], top, st, open);
    SeenStaysIn(digest, vs[0], top, st.seen, values);
  }

  lemma WithinFirst(digest: Value -> Digest, all: Counts, vs: seq<Value>, top: bool, st: State, open: set<Key>)
    requires vs != [] && Agree(digest, all, st, open) && Within(AfterAll(digest, all, vs, top, st).counts, all)
    ensures var between := After(digest, all, vs[0], top, st);
            && AfterAll(digest, all, vs, top, st) == AfterAll(digest, all, vs[1..], top, between)
            && Within(between.counts, all)
            && Grows(st, between) && Grows(between, AfterAll(digest, all, vs[1..], top, between))
  {
    AfterFirst(digest, all, vs, top, st);
    SharingAgrees(digest, all, vs[0], top, st, open);
    AllSharingAgrees(digest, all, vs[1..], top, After(digest, all, vs[0], top, st), open);
  }

  lemma {:induction false} TreeAdds(digest: Value -> Digest, all: Counts, values: set<Value>, v: Value, top: bool,
                                    st: State, open: set<Key>)
    requires KeysApart(digest, values)
    requires Unclashed(digest, all, values, st, open, Size(v)) && Parts(v) <= values && NoneReserved(v)
    requires Within(After(digest, all, v, top, st).counts, all)
    ensures TreeAddsTo(digest, v, TreeOf(digest, all, v, top, st.counts, st.written), top, st,
                       After(digest, all, v, top, st))
    decreases v, 1
  {
    AfterValue(digest, all, v, top, st);
    if !Shareable(v) {
      NoEvents(v);
      if v.Container? { NothingLargeInside(v.items, v.items); }
    } else if top || digest(v).key !in st.seen {
      FreshAdds(digest, all, values, v, top, st, open);
    } else {
      AgainIsReference(digest, all, v, st, open);
      var number := NatText(st.written[digest(v).key].id);
      assert Refers(number) in [Refers(number)];
    }
  }

  lemma FreshUnclashed(digest: Value -> Digest, all: Counts, values: set<Value>, v: Value, st: State, open: set<Key>)
    requires Unclashed(digest, all, values, st, open, Size(v)) && Parts(v) <= values
    requires Shareable(v) && digest(v).key !in st.seen
    ensures Unclashed(digest, all, values, Opened(digest, v, st), open + {digest(v).key}, SizeOfAll(v.items))
  {
    OpenedAgrees(digest, all, v, st, open);
  }

  lemma {:induction false} FreshAdds(digest: Value -> Digest, all: Counts, values: set<Value>, v: Value, top: bool,
                                     st: State, open: set<Key>)
    requires KeysApart(digest, values)
    requires Unclashed(digest, all, values, st, open, Size(v)) && Parts(v) <= values && NoneReserved(v)
    requires Within(After(digest, all, v, top, st).counts, all)
    requires Shareable(v) && (top || digest(v).key !in st.seen)
    ensures TreeAddsTo(digest, v, TreeOf(digest, all, v, top, st.counts, st.written), top, st,
                       After(digest, all, v, top, st))
    decreases v, 0
  {
    var first := if top then st else Opened(digest, v, st);
    var inner := AfterAll(digest, all, v.items, false, first);
    var trees := TreesOf(digest, all, v.items, false, first.counts, first.written);
    FreshParts(digest, all, v, top, st, first, inner, trees);
    var open' := if top then open else open + {digest(v).key};
    if !top { FreshUnclashed(digest, all, values, v, st, open); }
    PrimitivesStay(digest, v.items, SurveyAll(digest, v.items, false, first.counts).0, false, all, first.written);
    AllAdd(digest, all, values, v.items, false, first, open');
    AllSharingAgrees(digest, all, v.items, false, first, open');
    if !top { ClosedGrows(digest, all, v, st, inner); }
    FreshCloses(digest, all, v, top, st, first, inner, trees);
  }

  /** What writing a value's items adds, and the value itself with its definition unless it is a whole summary. */
  lemma FreshCloses(digest: Value -> Digest, all: Counts, v: Value, top: bool, st: State, first: State, inner: State,
                    trees: seq<Value>)
    requires Shareable(v) && NoneReserved(v) && SamePrimitives(v.items, trees)
    requires first == if top then st else Opened(digest, v, st)
    requires TreesAddTo(digest, v.items, trees, false, first, inner)
    requires !top ==> digest(v).key !in st.seen && digest(v).key !in st.counts && digest(v).key !in st.written
    requires !top ==> Grows(first, inner) && digest(v).key !in inner.written
    ensures TreeAddsTo(digest, v, FreshTree(digest, all, v, top, inner, trees), top, st,
                       if top then inner else Closed(digest, all, v, inner))
  {
    var full, events := AllInFull(v.items, trees, false), EventsOfAll(trees);
    FreshEvents(digest, all, v, top, inner, trees);
    FreshInFull(digest, all, v, top, inner, trees);
    if top {
      assert events + [] == events && [] + full == full;
    } else {
      AddsClosed(digest, all, v, full, events, st, inner);
    }
  }

  lemma FreshInFull(digest: Value -> Digest, all: Counts, v: Value, top: bool, inner: State, trees: seq<Value>)
    requires Shareable(v) && NoneReserved(v) && SamePrimitives(v.items, trees)
    ensures InFull(v, FreshTree(digest, all, v, top, inner, trees), top) ==
            (if top then [] else [v]) + AllInFull(v.items, trees, false)
  {
    BodyNotReserved(v, trees);
    var definition := Definition(|inner.written| + 1, Container(v.names, trees));
    assert definition.names.names[0] == "$def";
  }

  lemma {:induction false} AllAdd(digest: Value -> Digest, all: Counts, values: set<Value>, vs: seq<Value>, top: bool,
                                  st: State, open: set<Key>)
    requires KeysApart(digest, values)
    requires Unclashed(digest, all, values, st, open, SizeOfAll(vs)) && PartsOfAll(vs) <= values
    requires forall i :: 0 <= i < |vs| ==> NoneReserved(vs[i])
    requires Within(AfterAll(digest, all, vs, top, st).counts, all)
    ensures TreesAddTo(digest, vs, TreesOf(digest, all, vs, top, st.counts, st.written), top, st,
                       AfterAll(digest, all, vs, top, st))
    decreases vs, 0
  {
    if vs != [] {
      var between := After(digest, all, vs[0], top, st);
      UnclashedFirst(digest, all, values, vs, top, st, open);
      WithinFirst(digest, all, vs, top, st, open);
      TreesFirst(digest, all, vs, top, st);
      TreeAdds(digest, all, values, vs[0], top, st, open);
      AllAdd(digest, all, values, vs[1..], top, between, open);
      var tree := TreeOf(digest, all, vs[0], top, st.counts, st.written);
      var rest := TreesOf(digest, all, vs[1..], top, between.counts, between.written);
      assert ([tree] + rest)[0] == tree && ([tree] + rest)[1..] == rest;
      AddsBoth(digest, InFull(vs[0], tree, top), AllInFull(vs[1..], rest, top), Events(tree), EventsOfAll(rest),
               st, between, AfterAll(digest, all, vs, top, st));
    }
  }

  ghost predicate AllReferredTo(events: seq<Event>) {
    forall number :: Defines(number) in events ==> Refers(number) in events
  }

  lemma EachReferredTo(digest: Value -> Digest, all: Counts, summaries: seq<Value>, trees: seq<Value>, end: State)
    requires TreesAddTo(digest, summaries, trees, true, NOTHING_WRITTEN, end)
    requires Agree(digest, all, end, {}) && end.counts == all
    ensures Distinct(AllInFull(summaries, trees, true)) && AllReferredTo(EventsOfAll(trees))
  {
    var events := EventsOfAll(trees);
    forall number | Defines(number) in events
      ensures Refers(number) in events
    {
      var i :| 0 <= i < |events| && events[i] == Defines(number);
      var k :| k in end.written && events[i].number == NatText(end.written[k].id);
    }
  }

  lemma Start(digest: Value -> Digest, all: Counts, summaries: seq<Value>, values: set<Value>)
    requires all == SurveyAll(digest, summaries, true, map[]).1
    ensures Unclashed(digest, all, values, NOTHING_WRITTEN, {}, SizeOfAll(summaries))
    ensures AfterAll(digest, all, summaries, true, NOTHING_WRITTEN).counts == all && Within(all, all)
  {
  }

  lemma SharedAdd(digest: Value -> Digest, summaries: seq<Value>)
    requires forall i :: 0 <= i < |summaries| ==> NoneReserved(summaries[i])
    requires KeysApart(digest, PartsOfAll(summaries))
    ensures var all := SurveyAll(digest, summaries, true, map[]).1;
            var end := AfterAll(digest, all, summaries, true, NOTHING_WRITTEN);
            && TreesAddTo(digest, summaries, TreesOf(digest, all, summaries, true, map[], map[]), true, NOTHING_WRITTEN,
                          end)
            && Agree(digest, all, end, {}) && end.counts == all
  {
    var all := SurveyAll(digest, summaries, true, map[]).1;
    Start(digest, all, summaries, PartsOfAll(summaries));
    AllSharingAgrees(digest, all, summaries, true, NOTHING_WRITTEN, {});
    AllAdd(digest, all, PartsOfAll(summaries), summaries, true, NOTHING_WRITTEN, {});
  }

  /** With no key collision sharing is exact: no value long enough to share, other than a whole summary,
      is written in full twice, and each definition is referred to. */
  lemma SharedOnce(digest: Value -> Digest, summaries: seq<Value>)
    requires forall i :: 0 <= i < |summaries| ==> NoneReserved(summaries[i])
    requires KeysApart(digest, PartsOfAll(summaries))
    ensures Distinct(AllInFull(summaries, Shared(digest, summaries).0, true))
    ensures AllReferredTo(EventsOfAll(Shared(digest, summaries).0))
  {
    SharedAdd(digest, summaries);
    var all := SurveyAll(digest, summaries, true, map[]).1;
    EachReferredTo(digest, all, summaries, TreesOf(digest, all, summaries, true, map[], map[]),
                   AfterAll(digest, all, summaries, true, NOTHING_WRITTEN));
  }
}
