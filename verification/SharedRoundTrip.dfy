/** What the sharing writer writes is read back, and when it is not. */
module SharedRoundTrip {
  import opened Json
  import opened SharedSurvey
  import opened SharedWriter
  import opened SharedReader

  /** The first value met with each key. */
  type Seen = map<Key, Value>

  /** The values met again: each is, as a whole, the first value met with its key.
      Nothing inside a small value or inside a key met before is met. */
  function MetAgain(digest: Value -> Digest, v: Value, top: bool, seen: Seen): (seq<Value>, Seen)
    decreases v, 1
  {
    if !Shareable(v) then ([], seen) else
      var key := digest(v).key;
      if !top && key in seen then (if seen[key] == v then [v] else [], seen)
      else AllMetAgain(digest, v.items, false, if top then seen else seen[key := v])
  }

  function AllMetAgain(digest: Value -> Digest, vs: seq<Value>, top: bool, seen: Seen): (seq<Value>, Seen)
    decreases vs, 0
  {
    if vs == [] then ([], seen) else
      var (again, between) := MetAgain(digest, vs[0], top, seen);
      var (more, after) := AllMetAgain(digest, vs[1..], top, between);
      (again + more, after)
  }

  /** No two different values a write may share agree on both key and check. */
  ghost predicate NoClash(digest: Value -> Digest, values: set<Value>) {
    forall a, b :: a in values && b in values && Shareable(a) && Shareable(b) && digest(a) == digest(b) ==> a == b
  }

  predicate NoProtoIn(vs: seq<Value>) {
    forall i :: 0 <= i < |vs| ==> !HasProto(vs[i])
  }

  // ---------------------------------------------------- the writer's tables

  /** The survey's counts, the values first met and the definitions written, side by side. */
  datatype State = State(counts: Counts, seen: Seen, written: Written)

  ghost function After(digest: Value -> Digest, all: Counts, v: Value, top: bool, st: State): State {
    var (plan, counts) := Survey(digest, v, top, st.counts);
    State(counts, MetAgain(digest, v, top, st.seen).1, Share(digest, v, plan, top, all, st.written).1)
  }

  ghost function AfterAll(digest: Value -> Digest, all: Counts, vs: seq<Value>, top: bool, st: State): State {
    var (plans, counts) := SurveyAll(digest, vs, top, st.counts);
    State(counts, AllMetAgain(digest, vs, top, st.seen).1, ShareAll(digest, vs, plans, top, all, st.written).1)
  }

  /** The state inside a value met for the first time. */
  ghost function Opened(digest: Value -> Digest, v: Value, st: State): State {
    var key := digest(v).key;
    State(st.counts[key := 1], st.seen[key := v], st.written)
  }

  /** The state once that value is written: it is defined exactly when the whole survey counted it twice. */
  ghost function Closed(digest: Value -> Digest, all: Counts, v: Value, st: State): State {
    var Digest(key, check) := digest(v);
    if Count(all, key) > 1 then st.(written := st.written[key := Mark(|st.written| + 1, check)]) else st
  }

  lemma AfterValue(digest: Value -> Digest, all: Counts, v: Value, top: bool, st: State)
    requires forall k :: k in st.seen <==> k in st.counts
    requires forall k :: k in st.counts ==> st.counts[k] > 0
    ensures var key := digest(v).key;
            After(digest, all, v, top, st) ==
            if !Shareable(v) then st
            else if top then AfterAll(digest, all, v.items, false, st)
            else if key in st.seen then st.(counts := st.counts[key := st.counts[key] + 1])
            else Closed(digest, all, v, AfterAll(digest, all, v.items, false, Opened(digest, v, st)))
  {
  }

  lemma AfterFirst(digest: Value -> Digest, all: Counts, vs: seq<Value>, top: bool, st: State)
    requires vs != []
    ensures AfterAll(digest, all, vs, top, st) ==
            AfterAll(digest, all, vs[1..], top, After(digest, all, vs[0], top, st))
  {
    SurveyStep(digest, vs, top, st.counts);
    var (plan, between) := Survey(digest, vs[0], top, st.counts);
    var rest := SurveyAll(digest, vs[1..], top, between).0;
    assert ([plan] + rest)[1..] == rest;
  }

  /** How the tables agree.  `open` are the keys of the values being written, `all` the whole survey's counts. */
  ghost predicate Agree(digest: Value -> Digest, all: Counts, st: State, open: set<Key>) {
    && (forall k :: k in st.seen <==> k in st.counts)
    && (forall k :: k in st.counts ==> st.counts[k] > 0)
    && (forall k :: k in st.seen ==> Shareable(st.seen[k]) && digest(st.seen[k]).key == k)
    && (forall k :: k in st.written ==>
          k in st.seen && st.written[k].check == digest(st.seen[k]).check && Count(all, k) > 1)
    && (forall k :: k in st.seen ==> k in st.written || k in open || Count(all, k) <= 1)
    && (forall k :: k in st.written ==> 1 <= st.written[k].id <= |st.written|)
  }

  ghost predicate Grows(st: State, st': State) {
    && (forall k :: k in st.counts ==> k in st'.counts && st.counts[k] <= st'.counts[k])
    && (forall k :: k in st.seen ==> k in st'.seen && st'.seen[k] == st.seen[k])
    && (forall k :: k in st.written ==> k in st'.written && st'.written[k] == st.written[k])
    && (forall k :: k in st'.written ==> k in st.written || k !in st.seen)
  }

  lemma OpenedAgrees(digest: Value -> Digest, all: Counts, v: Value, st: State, open: set<Key>)
    requires Shareable(v) && digest(v).key !in st.seen && Agree(digest, all, st, open)
    ensures Agree(digest, all, Opened(digest, v, st), open + {digest(v).key})
    ensures digest(v).key !in st.written
  {
  }

  lemma ClosedAgrees(digest: Value -> Digest, all: Counts, v: Value, st: State, open: set<Key>)
    requires Shareable(v) && Agree(digest, all, st, open + {digest(v).key})
    requires digest(v).key in st.seen && st.seen[digest(v).key] == v && digest(v).key !in st.written
    ensures Agree(digest, all, Closed(digest, all, v, st), open)
  {
    var key := digest(v).key;
    if Count(all, key) > 1 {
      var closed := Closed(digest, all, v, st);
      assert |closed.written| == |st.written| + 1;
      assert forall k :: k in closed.written <==> k in st.written || k == key;
    }
  }

  lemma ClosedGrows(digest: Value -> Digest, all: Counts, v: Value, st: State, inner: State)
    requires digest(v).key !in st.seen && digest(v).key !in st.counts && digest(v).key !in st.written
    requires Grows(Opened(digest, v, st), inner)
    ensures Grows(st, Closed(digest, all, v, inner))
    ensures digest(v).key in inner.seen && inner.seen[digest(v).key] == v
    ensures digest(v).key !in inner.written
  {
    var key, first := digest(v).key, Opened(digest, v, st);
    assert key in first.seen && first.seen[key] == v;
    assert forall k :: k in st.counts ==> k in first.counts && first.counts[k] == st.counts[k];
    assert forall k :: k in st.seen ==> k in first.seen && first.seen[k] == st.seen[k];
  }

  lemma {:induction false} SharingAgrees(digest: Value -> Digest, all: Counts, v: Value, top: bool, st: State,
                                         open: set<Key>)
    requires Agree(digest, all, st, open)
    ensures Agree(digest, all, After(digest, all, v, top, st), open)
    ensures Grows(st, After(digest, all, v, top, st))
    decreases v, 1
  {
    AfterValue(digest, all, v, top, st);
    if Shareable(v) {
      var key := digest(v).key;
      if top {
        AllSharingAgrees(digest, all, v.items, false, st, open);
      } else if key !in st.seen {
        OpenedAgrees(digest, all, v, st, open);
        AllSharingAgrees(digest, all, v.items, false, Opened(digest, v, st), open + {key});
        var inner := AfterAll(digest, all, v.items, false, Opened(digest, v, st));
        ClosedGrows(digest, all, v, st, inner);
        ClosedAgrees(digest, all, v, inner, open);
      }
    }
  }

  lemma {:induction false} AllSharingAgrees(digest: Value -> Digest, all: Counts, vs: seq<Value>, top: bool, st: State,
                                            open: set<Key>)
    requires Agree(digest, all, st, open)
    ensures Agree(digest, all, AfterAll(digest, all, vs, top, st), open)
    ensures Grows(st, AfterAll(digest, all, vs, top, st))
    decreases vs, 0
  {
    if vs != [] {
      AfterFirst(digest, all, vs, top, st);
      SharingAgrees(digest, all, vs[0], top, st, open);
      AllSharingAgrees(digest, all, vs[1..], top, After(digest, all, vs[0], top, st), open);
    }
  }

  // --------------------------------------------------------- the round trip

  /** The tree a value is written as. */
  function TreeOf(digest: Value -> Digest, all: Counts, v: Value, top: bool, counts: Counts, written: Written): Value {
    Share(digest, v, Survey(digest, v, top, counts).0, top, all, written).0
  }

  function TreesOf(digest: Value -> Digest, all: Counts, vs: seq<Value>, top: bool, counts: Counts,
                   written: Written): seq<Value>
  {
    ShareAll(digest, vs, SurveyAll(digest, vs, top, counts).0, top, all, written).0
  }

  lemma TreesFirst(digest: Value -> Digest, all: Counts, vs: seq<Value>, top: bool, st: State)
    requires vs != []
    ensures var between := After(digest, all, vs[0], top, st);
            TreesOf(digest, all, vs, top, st.counts, st.written) ==
            [TreeOf(digest, all, vs[0], top, st.counts, st.written)] +
            TreesOf(digest, all, vs[1..], top, between.counts, between.written)
  {
    SurveyStep(digest, vs, top, st.counts);
    var (plan, between) := Survey(digest, vs[0], top, st.counts);
    var rest := SurveyAll(digest, vs[1..], top, between).0;
    assert ([plan] + rest)[1..] == rest;
  }

  /** The reader's table has what each definition written so far stands for. */
  ghost predicate Table(st: State, defined: Defined) {
    forall k :: k in st.written ==>
      && k in st.seen
      && NatText(st.written[k].id) in defined
      && defined[NatText(st.written[k].id)] == st.seen[k]
  }

  /** Every value being written is larger than what is written inside it. */
  ghost predicate Inside(open: set<Key>, st: State, size: nat) {
    forall k :: k in open ==> k in st.seen && Size(st.seen[k]) > size
  }

  ghost predicate Within(counts: Counts, all: Counts) {
    forall k :: k in counts ==> counts[k] <= Count(all, k)
  }

  ghost predicate SeenIn(seen: Seen, values: set<Value>) {
    forall k :: k in seen ==> seen[k] in values
  }

  /** A value met again is written as a reference: the first one is complete, and was defined. */
  lemma AgainIsReference(digest: Value -> Digest, all: Counts, v: Value, st: State, open: set<Key>)
    requires Shareable(v) && Agree(digest, all, st, open) && Inside(open, st, Size(v))
    requires Within(After(digest, all, v, false, st).counts, all)
    requires digest(v).key in st.seen && st.seen[digest(v).key] == v
    ensures digest(v).key in st.written && st.written[digest(v).key].check == digest(v).check
    ensures TreeOf(digest, all, v, false, st.counts, st.written) == Reference(st.written[digest(v).key].id)
  {
    AfterValue(digest, all, v, false, st);
    var key := digest(v).key;
    assert st.counts[key] + 1 <= Count(all, key);
    assert key !in open;
  }

  /** Writing what is inside a value never gives it a reserved shape. */
  lemma BodyNotReserved(v: Value, trees: seq<Value>)
    requires v.Container? && !IsReference(v) && !IsDefinition(v) && |trees| == |v.items|
    requires forall i :: 0 <= i < |trees| && (trees[i].Primitive? || v.items[i].Primitive?) ==> trees[i] == v.items[i]
    ensures !IsReference(Container(v.names, trees)) && !IsDefinition(Container(v.names, trees))
  {
  }

  /** Reading a definition records its value under its number. */
  lemma DefinitionRead(id: nat, body: Value, defined: Defined)
    ensures var (value, after) := Expand(body, defined);
            Expand(Definition(id, body), defined) == (value, after[NatText(id) := value])
  {
    assert Definition(id, body).names.names[0] == "$def";
    assert ValueAt(Definition(id, body).names) == 1;
  }

  lemma ReferenceRead(id: nat, defined: Defined)
    ensures Expand(Reference(id), defined) ==
            (if NatText(id) in defined then Copied(defined[NatText(id)]) else Reference(id), defined)
  {
  }

  /** What a value met for the first time is written as, and the tables after it. */
  lemma FreshParts(digest: Value -> Digest, all: Counts, v: Value, top: bool, st: State, first: State, inner: State,
                   trees: seq<Value>)
    requires Shareable(v) && (top || digest(v).key !in st.seen)
    requires forall k :: k in st.seen <==> k in st.counts
    requires first == if top then st else Opened(digest, v, st)
    requires inner == AfterAll(digest, all, v.items, false, first)
    requires trees == TreesOf(digest, all, v.items, false, first.counts, first.written)
    ensures TreeOf(digest, all, v, top, st.counts, st.written) == FreshTree(digest, all, v, top, inner, trees)
    ensures After(digest, all, v, top, st) == if top then inner else Closed(digest, all, v, inner)
    ensures MetAgain(digest, v, top, st.seen).0 == AllMetAgain(digest, v.items, false, first.seen).0
  {
  }

  ghost function FreshTree(digest: Value -> Digest, all: Counts, v: Value, top: bool, inner: State,
                           trees: seq<Value>): Value
    requires v.Container?
  {
    var body := Container(v.names, trees);
    if top || Count(all, digest(v).key) <= 1 then body else Definition(|inner.written| + 1, body)
  }

  lemma TableClosed(digest: Value -> Digest, all: Counts, v: Value, inner: State, defined: Defined)
    requires Table(inner, defined) && forall k :: k in inner.written ==> inner.written[k].id <= |inner.written|
    requires digest(v).key in inner.seen && inner.seen[digest(v).key] == v && digest(v).key !in inner.written
    ensures Table(Closed(digest, all, v, inner),
                  if Count(all, digest(v).key) > 1 then defined[NatText(|inner.written| + 1) := v] else defined)
  {
    forall k | k in inner.written
      ensures NatText(inner.written[k].id) != NatText(|inner.written| + 1)
    {
      if NatText(inner.written[k].id) == NatText(|inner.written| + 1) {
        NatTextInjective(inner.written[k].id, |inner.written| + 1);
      }
    }
  }

  lemma {:induction false} SeenStaysIn(digest: Value -> Digest, v: Value, top: bool, seen: Seen, values: set<Value>)
    requires SeenIn(seen, values) && Parts(v) <= values
    ensures SeenIn(MetAgain(digest, v, top, seen).1, values)
    decreases v, 1
  {
    if Shareable(v) && (top || digest(v).key !in seen) {
      var seen' := if top then seen else seen[digest(v).key := v];
      assert SeenIn(seen', values);
      AllSeenStayIn(digest, v.items, false, seen', values);
    }
  }

  lemma {:induction false} AllSeenStayIn(digest: Value -> Digest, vs: seq<Value>, top: bool, seen: Seen,
                                         values: set<Value>)
    requires SeenIn(seen, values) && PartsOfAll(vs) <= values
    ensures SeenIn(AllMetAgain(digest, vs, top, seen).1, values)
    decreases vs, 0
  {
    if vs != [] {
      SeenStaysIn(digest, vs[0], top, seen, values);
      AllSeenStayIn(digest, vs[1..], top, MetAgain(digest, vs[0], top, seen).1, values);
    }
  }

  lemma NoProtoInBoth(again: seq<Value>, more: seq<Value>)
    ensures NoProtoIn(again + more) <==> NoProtoIn(again) && NoProtoIn(more)
  {
    assert forall i :: 0 <= i < |again| ==> (again + more)[i] == again[i];
    assert forall i :: 0 <= i < |more| ==> (again + more)[|again| + i] == more[i];
  }

  lemma AllBackFirst(vs: seq<Value>, trees: seq<Value>, again: seq<Value>, more: seq<Value>, between: State,
                     after: State, defined: Defined)
    requires vs != [] && |trees| == |vs|
    requires Back(vs[0], trees[0], again, between, defined)
    requires NoProtoIn(again) ==> AllBack(vs[1..], trees[1..], more, after, Expand(trees[0], defined).1)
    ensures AllBack(vs, trees, again + more, after, defined)
  {
    ReadFirst(vs, trees, defined);
    NoProtoInBoth(again, more);
  }

  /** A list reads back as itself when its first value and the rest do. */
  lemma ReadFirst(vs: seq<Value>, trees: seq<Value>, defined: Defined)
    requires vs != [] && |trees| == |vs|
    ensures var (back, between) := Expand(trees[0], defined);
            var (rest, after) := ExpandAll(trees[1..], between);
            && ExpandAll(trees, defined) == ([back] + rest, after)
            && ([back] + rest == vs <==> back == vs[0] && rest == vs[1..])
  {
    var (back, between) := Expand(trees[0], defined);
    var rest := ExpandAll(trees[1..], between).0;
    assert ([back] + rest)[1..] == rest && [vs[0]] + vs[1..] == vs;
  }

  /** The tree reads back as the value exactly when nothing met again holds a `__proto__` key,
      and then the reader's table keeps up with the writer's. */
  ghost predicate Back(v: Value, tree: Value, again: seq<Value>, after: State, defined: Defined) {
    var (back, defined') := Expand(tree, defined);
    && (back == v <==> NoProtoIn(again))
    && (NoProtoIn(again) ==> Table(after, defined'))
  }

  ghost predicate AllBack(vs: seq<Value>, trees: seq<Value>, again: seq<Value>, after: State, defined: Defined) {
    var (backs, defined') := ExpandAll(trees, defined);
    && (backs == vs <==> NoProtoIn(again))
    && (NoProtoIn(again) ==> Table(after, defined'))
  }

  ghost predicate SamePrimitives(vs: seq<Value>, trees: seq<Value>) {
    |trees| == |vs| && forall i :: 0 <= i < |trees| && (trees[i].Primitive? || vs[i].Primitive?) ==> trees[i] == vs[i]
  }

  lemma {:induction false} PrimitivesStay(digest: Value -> Digest, vs: seq<Value>, plans: seq<Plan>, top: bool,
                                          all: Counts, written: Written)
    ensures SamePrimitives(vs, ShareAll(digest, vs, plans, top, all, written).0)
  {
    if vs != [] {
      var plan, rest := if plans == [] then Nothing else plans[0], if plans == [] then [] else plans[1..];
      PrimitivesStay(digest, vs[1..], rest, top, all, Share(digest, vs[0], plan, top, all, written).1);
    }
  }

  /** What holds when the writer comes to a value, and the reader to its tree. */
  ghost predicate Ready(digest: Value -> Digest, all: Counts, values: set<Value>, st: State, defined: Defined,
                        open: set<Key>, size: nat)
  {
    && Agree(digest, all, st, open) && Table(st, defined) && Inside(open, st, size)
    && NoClash(digest, values) && SeenIn(st.seen, values)
  }

  lemma {:induction false} ReadsBack(digest: Value -> Digest, all: Counts, values: set<Value>, v: Value, top: bool,
                                     st: State, defined: Defined, open: set<Key>)
    requires Ready(digest, all, values, st, defined, open, Size(v))
    requires Parts(v) <= values && WellFormed(v) && NoneReserved(v)
    requires Within(After(digest, all, v, top, st).counts, all)
    ensures Back(v, TreeOf(digest, all, v, top, st.counts, st.written), MetAgain(digest, v, top, st.seen).0,
                 After(digest, all, v, top, st), defined)
    decreases v, 1
  {
    var key := digest(v).key;
    AfterValue(digest, all, v, top, st);
    ReadAsItIs(v, defined);
    if Shareable(v) {
      if !top && key in st.seen {
        RepeatReadsBack(digest, all, values, v, st, defined, open);
      } else {
        FreshReadsBack(digest, all, values, v, top, st, defined, open);
      }
    }
  }

  lemma RepeatReadsBack(digest: Value -> Digest, all: Counts, values: set<Value>, v: Value,
                        st: State, defined: Defined, open: set<Key>)
    requires Ready(digest, all, values, st, defined, open, Size(v))
    requires Parts(v) <= values && WellFormed(v) && NoneReserved(v)
    requires Within(After(digest, all, v, false, st).counts, all)
    requires Shareable(v) && digest(v).key in st.seen
    ensures Back(v, TreeOf(digest, all, v, false, st.counts, st.written), MetAgain(digest, v, false, st.seen).0,
                 After(digest, all, v, false, st), defined)
  {
    var key := digest(v).key;
    AfterValue(digest, all, v, false, st);
    ReadAsItIs(v, defined);
    if st.seen[key] == v {
      AgainIsReference(digest, all, v, st, open);
      ReferenceRead(st.written[key].id, defined);
      CopyIsWhole(v);
      assert [v][0] == v;
    } else {
      assert digest(st.seen[key]) != digest(v);
      assert key in st.written ==> st.written[key].check != digest(v).check;
    }
  }

  lemma FreshReady(digest: Value -> Digest, all: Counts, values: set<Value>, v: Value, st: State, defined: Defined,
                   open: set<Key>)
    requires Ready(digest, all, values, st, defined, open, Size(v))
    requires Parts(v) <= values && Shareable(v) && digest(v).key !in st.seen
    ensures Ready(digest, all, values, Opened(digest, v, st), defined, open + {digest(v).key}, SizeOfAll(v.items))
    ensures Ready(digest, all, values, st, defined, open, SizeOfAll(v.items))
  {
    OpenedAgrees(digest, all, v, st, open);
  }

  /** A body reads back as its value exactly when its items do. */
  lemma BodyRead(v: Value, trees: seq<Value>, defined: Defined)
    requires v.Container? && NoneReserved(v) && SamePrimitives(v.items, trees)
    ensures var (backs, after) := ExpandAll(trees, defined);
            && Expand(Container(v.names, trees), defined) == (Container(v.names, backs), after)
            && (Container(v.names, backs) == v <==> backs == v.items)
  {
    BodyNotReserved(v, trees);
    assert v == Container(v.names, v.items);
  }

  lemma {:induction false} FreshReadsBack(digest: Value -> Digest, all: Counts, values: set<Value>, v: Value, top: bool,
                                          st: State, defined: Defined, open: set<Key>)
    requires Ready(digest, all, values, st, defined, open, Size(v))
    requires Parts(v) <= values && WellFormed(v) && NoneReserved(v)
    requires Within(After(digest, all, v, top, st).counts, all)
    requires Shareable(v) && (top || digest(v).key !in st.seen)
    ensures Back(v, TreeOf(digest, all, v, top, st.counts, st.written), MetAgain(digest, v, top, st.seen).0,
                 After(digest, all, v, top, st), defined)
    decreases v, 0
  {
    var first := if top then st else Opened(digest, v, st);
    var inner := AfterAll(digest, all, v.items, false, first);
    var trees := TreesOf(digest, all, v.items, false, first.counts, first.written);
    FreshParts(digest, all, v, top, st, first, inner, trees);
    var open' := if top then open else open + {digest(v).key};
    if top { assert Ready(digest, all, values, st, defined, open, SizeOfAll(v.items)); }
    else { FreshReady(digest, all, values, v, st, defined, open); }
    AllReadBack(digest, all, values, v.items, false, first, defined, open');
    PrimitivesStay(digest, v.items, SurveyAll(digest, v.items, false, first.counts).0, false, all, first.written);
    AllSharingAgrees(digest, all, v.items, false, first, open');
    if !top { ClosedGrows(digest, all, v, st, inner); }
    FreshClosed(digest, all, v, top, inner, trees, AllMetAgain(digest, v.items, false, first.seen).0, defined, open');
  }

  lemma FreshClosed(digest: Value -> Digest, all: Counts, v: Value, top: bool, inner: State, trees: seq<Value>,
                    again: seq<Value>, defined: Defined, open: set<Key>)
    requires v.Container? && NoneReserved(v) && SamePrimitives(v.items, trees)
    requires AllBack(v.items, trees, again, inner, defined)
    requires !top ==>
      Agree(digest, all, inner, open) &&
      digest(v).key in inner.seen && inner.seen[digest(v).key] == v && digest(v).key !in inner.written
    ensures Back(v, FreshTree(digest, all, v, top, inner, trees), again,
                 if top then inner else Closed(digest, all, v, inner), defined)
  {
    BodyRead(v, trees, defined);
    DefinitionRead(|inner.written| + 1, Container(v.names, trees), defined);
    if !top && NoProtoIn(again) {
      TableClosed(digest, all, v, inner, ExpandAll(trees, defined).1);
    }
  }

  /** The tables are ready for the first of a list, and where its definitions are read, for the rest. */
  lemma ReadyInTurn(digest: Value -> Digest, all: Counts, values: set<Value>, vs: seq<Value>, top: bool, st: State,
                    defined: Defined, open: set<Key>)
    requires vs != [] && Ready(digest, all, values, st, defined, open, SizeOfAll(vs))
    requires PartsOfAll(vs) <= values && Within(AfterAll(digest, all, vs, top, st).counts, all)
    ensures Ready(digest, all, values, st, defined, open, Size(vs[0]))
    ensures var between := After(digest, all, vs[0], top, st);
            && AfterAll(digest, all, vs, top, st) == AfterAll(digest, all, vs[1..], top, between)
            && Within(between.counts, all)
            && forall next :: Table(between, next) ==>
               Ready(digest, all, values, between, next, open, SizeOfAll(vs[1..]))
  {
    AfterFirst(digest, all, vs, top, st);
    SharingAgrees(digest, all, vs[0], top, st, open);
    AllSharingAgrees(digest, all, vs[1..], top, After(digest, all, vs[0], top, st), open);
    SeenStaysIn(digest, vs[0], top, st.seen, values);
  }

  lemma {:induction false} AllReadBack(digest: Value -> Digest, all: Counts, values: set<Value>, vs: seq<Value>,
                                       top: bool, st: State, defined: Defined, open: set<Key>)
    requires Ready(digest, all, values, st, defined, open, SizeOfAll(vs))
    requires PartsOfAll(vs) <= values && AllWellFormed(vs) && (forall i :: 0 <= i < |vs| ==> NoneReserved(vs[i]))
    requires Within(AfterAll(digest, all, vs, top, st).counts, all)
    ensures AllBack(vs, TreesOf(digest, all, vs, top, st.counts, st.written), AllMetAgain(digest, vs, top, st.seen).0,
                    AfterAll(digest, all, vs, top, st), defined)
    decreases vs, 0
  {
    if vs != [] {
      var between := After(digest, all, vs[0], top, st);
      ReadyInTurn(digest, all, values, vs, top, st, defined, open);
      TreesFirst(digest, all, vs, top, st);
      ReadsBack(digest, all, values, vs[0], top, st, defined, open);
      var tree := TreeOf(digest, all, vs[0], top, st.counts, st.written);
      var rest := TreesOf(digest, all, vs[1..], top, between.counts, between.written);
      var trees := [tree] + rest;
      assert trees[0] == tree && trees[1..] == rest;
      var (again, _) := MetAgain(digest, vs[0], top, st.seen);
      var (more, _) := AllMetAgain(digest, vs[1..], top, between.seen);
      if NoProtoIn(again) {
        AllReadBack(digest, all, values, vs[1..], top, between, Expand(tree, defined).1, open);
      }
      AllBackFirst(vs, trees, again, more, between, AfterAll(digest, all, vs, top, st), defined);
    }
  }

  const NOTHING_WRITTEN := State(map[], map[], map[])

  /** Reading every line in order with one reader gives the summaries back exactly when no value
      met again holds a `__proto__` key: the copy of such a value has lost the key. */
  lemma RoundTripExactly(digest: Value -> Digest, summaries: seq<Value>)
    requires AllWellFormed(summaries) && (forall i :: 0 <= i < |summaries| ==> NoneReserved(summaries[i]))
    requires NoClash(digest, PartsOfAll(summaries))
    ensures ExpandAll(Shared(digest, summaries).0, map[]).0 == summaries <==>
            NoProtoIn(AllMetAgain(digest, summaries, true, map[]).0)
  {
    var all := SurveyAll(digest, summaries, true, map[]).1;
    AllReadBack(digest, all, PartsOfAll(summaries), summaries, true, NOTHING_WRITTEN, map[], {});
  }

  lemma {:induction false} MetAgainIsInside(digest: Value -> Digest, v: Value, top: bool, seen: Seen, u: Value)
    requires u in MetAgain(digest, v, top, seen).0 && !HasProto(v)
    ensures !HasProto(u)
    decreases v, 1
  {
    if Shareable(v) && (top || digest(v).key !in seen) {
      AllMetAgainAreInside(digest, v.items, false, if top then seen else seen[digest(v).key := v], u);
    }
  }

  lemma {:induction false} AllMetAgainAreInside(digest: Value -> Digest, vs: seq<Value>, top: bool, seen: Seen,
                                                u: Value)
    requires u in AllMetAgain(digest, vs, top, seen).0 && NoProtoIn(vs)
    ensures !HasProto(u)
    decreases vs, 0
  {
    if u in MetAgain(digest, vs[0], top, seen).0 {
      MetAgainIsInside(digest, vs[0], top, seen, u);
    } else {
      AllMetAgainAreInside(digest, vs[1..], top, MetAgain(digest, vs[0], top, seen).1, u);
    }
  }

  /** With no `__proto__` key anywhere, what is written is always read back. */
  lemma RoundTrip(digest: Value -> Digest, summaries: seq<Value>)
    requires AllWellFormed(summaries) && (forall i :: 0 <= i < |summaries| ==> NoneReserved(summaries[i]))
    requires NoClash(digest, PartsOfAll(summaries)) && NoProtoIn(summaries)
    ensures ExpandAll(Shared(digest, summaries).0, map[]).0 == summaries
  {
    NoProtoAgain(digest, summaries);
    RoundTripExactly(digest, summaries);
  }

  lemma NoProtoAgain(digest: Value -> Digest, summaries: seq<Value>)
    requires NoProtoIn(summaries)
    ensures NoProtoIn(AllMetAgain(digest, summaries, true, map[]).0)
  {
    var again := AllMetAgain(digest, summaries, true, map[]).0;
    forall i | 0 <= i < |again|
      ensures !HasProto(again[i])
    {
      AllMetAgainAreInside(digest, summaries, true, map[], again[i]);
    }
  }

  /** An object whose only key is `__proto__`, and a summary that says it twice. */
  const PROTO_OBJECT := Container(Named([PROTO]), [Primitive(Text("what the key holds"))])
  const PROTO_SUMMARY := Container(Unnamed, [PROTO_OBJECT, PROTO_OBJECT])

  lemma ProtoObjectFacts()
    ensures Size(PROTO_OBJECT) == 35 && Shareable(PROTO_OBJECT) && Shareable(PROTO_SUMMARY)
    ensures WellFormed(PROTO_SUMMARY) && NoneReserved(PROTO_SUMMARY) && HasProto(PROTO_OBJECT)
  {
    var names, items := [PROTO], [Primitive(Text("what the key holds"))];
    assert names[..0] == [] && items[1..] == [];
    assert NamesSize(names) == NamesSize(names[..0]) + |PROTO| + 3;
    assert SizeOfAll(items) == Size(items[0]) + 1 + SizeOfAll(items[1..]);
    assert Size(PROTO_OBJECT) == 2 + NamesSize(names) + SizeOfAll(items);
    var twice := [PROTO_OBJECT, PROTO_OBJECT];
    assert twice[1..] == [PROTO_OBJECT];
    assert SizeOfAll(twice) == Size(PROTO_OBJECT) + 1 + SizeOfAll(twice[1..]);
    assert NamesSize([]) == 0;
    assert WellFormed(PROTO_OBJECT) && NoneReserved(PROTO_OBJECT);
  }

  /** The round trip is not total: under any digest this summary reads back without its second `__proto__` key. */
  lemma ProtoIsLost(digest: Value -> Digest)
    requires NoClash(digest, PartsOfAll([PROTO_SUMMARY]))
    ensures ExpandAll(Shared(digest, [PROTO_SUMMARY]).0, map[]).0 != [PROTO_SUMMARY]
  {
    ProtoObjectFacts();
    var items, inner := PROTO_SUMMARY.items, PROTO_OBJECT.items;
    assert items[1..] == [PROTO_OBJECT] && [PROTO_OBJECT][1..] == [] && [PROTO_SUMMARY][1..] == [] && inner[1..] == [];
    var key := digest(PROTO_OBJECT).key;
    var seen: Seen := map[key := PROTO_OBJECT];
    var none: seq<Value> := [];
    assert none + none == none && [PROTO_OBJECT] + none == [PROTO_OBJECT] && none + [PROTO_OBJECT] == [PROTO_OBJECT];
    assert AllMetAgain(digest, inner, false, seen) == (none + none, seen) by {
      assert MetAgain(digest, inner[0], false, seen) == (none, seen);
      assert AllMetAgain(digest, inner[1..], false, seen) == (none, seen);
    }
    assert map[][key := PROTO_OBJECT] == seen;
    assert MetAgain(digest, PROTO_OBJECT, false, map[]) == ([], seen);
    assert AllMetAgain(digest, items[1..], false, seen).0 == [PROTO_OBJECT];
    assert AllMetAgain(digest, items, false, map[]).0 == [PROTO_OBJECT];
    assert MetAgain(digest, PROTO_SUMMARY, true, map[]) == AllMetAgain(digest, items, false, map[]);
    var summaries := [PROTO_SUMMARY];
    assert AllMetAgain(digest, summaries[1..], true, MetAgain(digest, PROTO_SUMMARY, true, map[]).1).0 == none;
    assert AllMetAgain(digest, summaries, true, map[]).0 == [PROTO_OBJECT] + none;
    assert HasProto([PROTO_OBJECT][0]);
    RoundTripExactly(digest, [PROTO_SUMMARY]);
  }

  function Lone(text: string): Value {
    Container(Unnamed, [Primitive(Text(text))])
  }

  lemma LoneShareable(text: string)
    requires |text| >= 27
    ensures Shareable(Lone(text)) && Copied(Lone(text)) == Lone(text)
  {
    var items := Lone(text).items;
    assert items[1..] == [];
    assert SizeOfAll(items) == Size(items[0]) + 1 + SizeOfAll(items[1..]) && NamesSize([]) == 0;
    assert CopiedAll(items) == items;
  }

  lemma LoneItems(digest: Value -> Digest, all: Counts, text: string, counts: Counts, written: Written)
    ensures SurveyAll(digest, Lone(text).items, false, counts) == ([Nothing], counts)
    ensures ShareAll(digest, Lone(text).items, [Nothing], false, all, written) == (Lone(text).items, written)
  {
    var items, plans := Lone(text).items, [Nothing];
    assert items[1..] == [] && plans[1..] == [];
    assert SurveyAll(digest, items, false, counts).0 == plans;
    assert ShareAll(digest, items, plans, false, all, written).0 == items;
  }

  lemma LoneSurvey(digest: Value -> Digest, all: Counts, text: string, counts: Counts, written: Written)
    requires |text| >= 27 && Count(counts, digest(Lone(text)).key) == 0
    ensures Shareable(Lone(text)) && Copied(Lone(text)) == Lone(text)
    ensures Survey(digest, Lone(text), false, counts) == (Fresh([Nothing]), counts[digest(Lone(text)).key := 1])
    ensures Share(digest, Lone(text), Fresh([Nothing]), false, all, written).0 ==
            if Count(all, digest(Lone(text)).key) <= 1 then Lone(text) else Definition(|written| + 1, Lone(text))
    ensures Share(digest, Lone(text), Fresh([Nothing]), false, all, written).1 ==
            if Count(all, digest(Lone(text)).key) <= 1 then written
            else written[digest(Lone(text)).key := Mark(|written| + 1, digest(Lone(text)).check)]
  {
    LoneShareable(text);
    LoneItems(digest, all, text, counts[digest(Lone(text)).key := 1], written);
    FreshShared(digest, Lone(text), [Nothing], false, all, written);
  }

  lemma OneSurveyed(digest: Value -> Digest, v: Value, top: bool, counts: Counts)
    ensures SurveyAll(digest, [v], top, counts) ==
            ([Survey(digest, v, top, counts).0], Survey(digest, v, top, counts).1)
  {
    var (plan, after) := Survey(digest, v, top, counts);
    var vs, none := [v], SurveyAll(digest, [], top, after).0;
    SurveyStep(digest, vs, top, counts);
    assert vs[1..] == [] && [plan] + none == [plan];
  }

  lemma OneShared(digest: Value -> Digest, v: Value, plan: Plan, top: bool, all: Counts, written: Written)
    ensures ShareAll(digest, [v], [plan], top, all, written) ==
            ([Share(digest, v, plan, top, all, written).0], Share(digest, v, plan, top, all, written).1)
  {
    var (tree, after) := Share(digest, v, plan, top, all, written);
    var vs, plans, none := [v], [plan], ShareAll(digest, [], [], top, all, after).0;
    assert vs[1..] == [] && plans[1..] == [] && [tree] + none == [tree];
    assert ShareAll(digest, vs[1..], plans[1..], top, all, after) == (none, after);
  }

  /** The check is needed: two different values that agree on key and check are read back as one. */
  lemma ClashLosesAValue(digest: Value -> Digest, a: string, b: string)
    requires |a| >= 27 && |b| >= 27 && a != b && digest(Lone(a)) == digest(Lone(b))
    ensures var summary := Container(Unnamed, [Lone(a), Lone(b)]);
            ExpandAll(Shared(digest, [summary]).0, map[]).0 == [Container(Unnamed, [Lone(a), Lone(a)])]
  {
    var Digest(key, check) := digest(Lone(a));
    var both := [Lone(a), Lone(b)];
    var summary := Container(Unnamed, both);
    var all: Counts := map[key := 2];
    assert both[1..] == [Lone(b)] && [Lone(b)][1..] == [] && [summary][1..] == [];
    LoneSurvey(digest, all, a, map[], map[]);
    LoneSurvey(digest, all, b, map[], map[]);
    var once: Counts := map[key := 1];
    assert map[][key := 1] == once && once[key := 2] == all;
    assert Survey(digest, Lone(b), false, once) == (Again, all);
    OneSurveyed(digest, Lone(b), false, once);
    SurveyStep(digest, both, false, map[]);
    var plans := [Fresh([Nothing]), Again];
    assert [Fresh([Nothing])] + [Again] == plans;
    assert SurveyAll(digest, both, false, map[]) == (plans, all);
    assert NamesSize([]) == 0 && SizeOfAll(both) == Size(Lone(a)) + 1 + SizeOfAll(both[1..]);
    assert Survey(digest, summary, true, map[]) == (Fresh(plans), all);
    OneSurveyed(digest, summary, true, map[]);
    var written: Written := map[key := Mark(1, check)];
    assert map[][key := Mark(1, check)] == written && plans[1..] == [Again];
    assert Share(digest, Lone(b), Again, false, all, written) == (Reference(1), written);
    OneShared(digest, Lone(b), Again, false, all, written);
    var trees := [Definition(1, Lone(a)), Reference(1)];
    assert [trees[0]] + [Reference(1)] == trees;
    assert ShareAll(digest, both[1..], plans[1..], false, all, written) == ([Reference(1)], written);
    assert ShareAll(digest, both, plans, false, all, map[]) == (trees, written);
    var tree := Container(Unnamed, trees);
    assert Share(digest, summary, Fresh(plans), true, all, map[]) == (tree, written);
    OneShared(digest, summary, Fresh(plans), true, all, map[]);
    BothReadAsFirst(a, tree);
  }

  lemma BothReadAsFirst(a: string, tree: Value)
    requires |a| >= 27 && tree == Container(Unnamed, [Definition(1, Lone(a)), Reference(1)])
    ensures ExpandAll([tree], map[]).0 == [Container(Unnamed, [Lone(a), Lone(a)])]
  {
    var trees := tree.items;
    assert trees[1..] == [Reference(1)] && [Reference(1)][1..] == [] && [tree][1..] == [];
    ReadAsItIs(Lone(a), map[]);
    DefinitionRead(1, Lone(a), map[]);
    ReferenceRead(1, map[][NatText(1) := Lone(a)]);
    CopyIsWhole(Lone(a));
    assert ExpandAll(trees, map[]).0 == [Lone(a), Lone(a)];
  }
}
