/** Summaries as the construction copies read them: the calls they make and the containers they reach. */
module Constructions {
  import opened Json
  import opened Sequences

  /** Where a receiver was made, as `file:line:column`. */
  type Construction = string

  /** A summary's own id, or the id of its copy for one construction. */
  datatype Id = Original(name: string) | Copy(of: Id, construction: Construction)

  /** A boundary, perhaps with the container a construction gives it. */
  datatype Binding = Boundary(name: string) | InContainer(of: Binding, container: string)

  /** A call lists no possible callee, or no receiver construction, where the record leaves the field out. */
  datatype Call = Call(callee: string, summary: Option<Id>, possible: seq<Id>, onOwnReceiver: bool,
                       made: seq<Construction>)

  datatype Effect =
    | Invocation(call: Call)
    | Interaction(binding: Binding, containers: map<Construction, string>)
    | Other(kind: string)

  datatype Transition = Transition(effects: seq<Effect>)

  datatype Summary = Summary(id: Id, receiver: Option<Construction>, transitions: seq<Transition>)

  type DependsOn = map<Id, set<Construction>>

  function EffectsOf(s: Summary): seq<Effect> {
    FlatEffects(s.transitions)
  }

  function FlatEffects(transitions: seq<Transition>): seq<Effect> {
    if transitions == [] then [] else transitions[0].effects + FlatEffects(transitions[1..])
  }

  /** Ids that no two summaries share, none of them a copy's. */
  predicate OwnIds(summaries: seq<Summary>) {
    && (forall i :: 0 <= i < |summaries| ==> summaries[i].id.Original?)
    && (forall i, j :: 0 <= i < j < |summaries| ==> summaries[i].id != summaries[j].id)
  }

  // ------------------------------------------------------------ dependency

  predicate ListsContainer(effects: seq<Effect>, c: Construction) {
    exists i :: 0 <= i < |effects| && effects[i].Interaction? && c in effects[i].containers
  }

  predicate CallsOwn(effects: seq<Effect>, callee: Id) {
    exists i :: 0 <= i < |effects| && effects[i].Invocation? &&
      effects[i].call.onOwnReceiver && effects[i].call.summary == Some(callee)
  }

  /** Some summary with this id lists a container for the construction. */
  predicate Reads(summaries: seq<Summary>, id: Id, c: Construction) {
    exists i :: 0 <= i < |summaries| && summaries[i].id == id && ListsContainer(EffectsOf(summaries[i]), c)
  }

  /** Some summary with this id calls another on its own receiver. */
  predicate CallsOnSelf(summaries: seq<Summary>, id: Id, callee: Id) {
    exists i :: 0 <= i < |summaries| && summaries[i].id == id && CallsOwn(EffectsOf(summaries[i]), callee)
  }

  /** A chain of at most `n` calls, each on the caller's own receiver, ends at a summary listing a container. */
  ghost predicate ChainReads(summaries: seq<Summary>, id: Id, c: Construction, n: nat)
    decreases n
  {
    || Reads(summaries, id, c)
    || (n > 0 && exists callee :: CallsOnSelf(summaries, id, callee) && ChainReads(summaries, callee, c, n - 1))
  }

  ghost predicate Depends(summaries: seq<Summary>, id: Id, c: Construction) {
    exists n: nat :: ChainReads(summaries, id, c, n)
  }

  predicate Has(depended: DependsOn, id: Id, c: Construction) {
    id in depended && c in depended[id]
  }

  /** The map lists exactly the constructions each id depends on, and no id that depends on none. */
  ghost predicate IsDependency(summaries: seq<Summary>, depended: DependsOn) {
    && (forall id, c :: Has(depended, id, c) <==> Depends(summaries, id, c))
    && (forall id :: id in depended ==> depended[id] != {})
  }

  lemma DependsStep(summaries: seq<Summary>, id: Id, callee: Id, c: Construction)
    requires CallsOnSelf(summaries, id, callee) && Depends(summaries, callee, c)
    ensures Depends(summaries, id, c)
  {
    var n: nat :| ChainReads(summaries, callee, c, n);
    assert ChainReads(summaries, id, c, n + 1);
  }

  lemma DependsReads(summaries: seq<Summary>, id: Id, c: Construction)
    requires Reads(summaries, id, c)
    ensures Depends(summaries, id, c)
  {
    assert ChainReads(summaries, id, c, 0);
  }

  /** Two maps that both list the dependencies are one map. */
  lemma DependencyIsUnique(summaries: seq<Summary>, a: DependsOn, b: DependsOn)
    requires IsDependency(summaries, a) && IsDependency(summaries, b)
    ensures a == b
  {
    SameEntries(a, b);
    SameEntries(b, a);
  }

  lemma SameEntries(a: DependsOn, b: DependsOn)
    requires forall id, c :: Has(a, id, c) <==> Has(b, id, c)
    requires forall id :: id in a ==> a[id] != {}
    ensures forall id :: id in a ==> id in b && a[id] == b[id]
  {
    forall id | id in a
      ensures id in b && a[id] == b[id]
    {
      var c0 :| c0 in a[id];
      assert Has(a, id, c0);
      forall c
        ensures c in a[id] <==> c in b[id]
      {
        assert Has(a, id, c) <==> Has(b, id, c);
      }
    }
  }

  function Of(depended: DependsOn, id: Id): set<Construction> {
    if id in depended then depended[id] else {}
  }

  function With(depended: DependsOn, id: Id, cs: set<Construction>): DependsOn {
    if cs == {} then depended else depended[id := Of(depended, id) + cs]
  }

  lemma ReadsOneMore(summaries: seq<Summary>, i: nat, id: Id, c: Construction)
    requires i < |summaries|
    ensures Reads(summaries[..i + 1], id, c) <==>
            Reads(summaries[..i], id, c) || (summaries[i].id == id && ListsContainer(EffectsOf(summaries[i]), c))
  {
    if Reads(summaries[..i], id, c) {
      var k :| 0 <= k < i && summaries[..i][k].id == id && ListsContainer(EffectsOf(summaries[..i][k]), c);
      assert summaries[..i + 1][k] == summaries[..i][k];
    }
    if summaries[i].id == id && ListsContainer(EffectsOf(summaries[i]), c) {
      assert summaries[..i + 1][i] == summaries[i];
    }
    if Reads(summaries[..i + 1], id, c) {
      var k :| 0 <= k < i + 1 && summaries[..i + 1][k].id == id && ListsContainer(EffectsOf(summaries[..i + 1][k]), c);
      if k < i { assert summaries[..i][k] == summaries[..i + 1][k]; }
    }
  }

  lemma CallsOneMore(summaries: seq<Summary>, i: nat, id: Id, callee: Id)
    requires i < |summaries|
    ensures CallsOnSelf(summaries[..i + 1], id, callee) <==>
            CallsOnSelf(summaries[..i], id, callee) ||
              (summaries[i].id == id && CallsOwn(EffectsOf(summaries[i]), callee))
  {
    if CallsOnSelf(summaries[..i], id, callee) {
      var k :| 0 <= k < i && summaries[..i][k].id == id && CallsOwn(EffectsOf(summaries[..i][k]), callee);
      assert summaries[..i + 1][k] == summaries[..i][k];
    }
    if summaries[i].id == id && CallsOwn(EffectsOf(summaries[i]), callee) {
      assert summaries[..i + 1][i] == summaries[i];
    }
    if CallsOnSelf(summaries[..i + 1], id, callee) {
      var k :| 0 <= k < i + 1 && summaries[..i + 1][k].id == id && CallsOwn(EffectsOf(summaries[..i + 1][k]), callee);
      if k < i { assert summaries[..i][k] == summaries[..i + 1][k]; }
    }
  }

  lemma ListsOneMore(effects: seq<Effect>, i: nat, c: Construction)
    requires i < |effects|
    ensures ListsContainer(effects[..i + 1], c) <==>
            ListsContainer(effects[..i], c) || (effects[i].Interaction? && c in effects[i].containers)
  {
    if ListsContainer(effects[..i], c) {
      var k :| 0 <= k < i && effects[..i][k].Interaction? && c in effects[..i][k].containers;
      assert effects[..i + 1][k] == effects[..i][k];
    }
    if effects[i].Interaction? && c in effects[i].containers {
      assert effects[..i + 1][i] == effects[i];
    }
    if ListsContainer(effects[..i + 1], c) {
      var k :| 0 <= k < i + 1 && effects[..i + 1][k].Interaction? && c in effects[..i + 1][k].containers;
      if k < i { assert effects[..i][k] == effects[..i + 1][k]; }
    }
  }

  lemma OwnCallsOneMore(effects: seq<Effect>, i: nat, callee: Id)
    requires i < |effects|
    ensures CallsOwn(effects[..i + 1], callee) <==>
            CallsOwn(effects[..i], callee) ||
            (effects[i].Invocation? && effects[i].call.onOwnReceiver && effects[i].call.summary == Some(callee))
  {
    if CallsOwn(effects[..i], callee) {
      var k :| 0 <= k < i && effects[..i][k].Invocation? && effects[..i][k].call.onOwnReceiver &&
        effects[..i][k].call.summary == Some(callee);
      assert effects[..i + 1][k] == effects[..i][k];
    }
    if effects[i].Invocation? && effects[i].call.onOwnReceiver && effects[i].call.summary == Some(callee) {
      assert effects[..i + 1][i] == effects[i];
    }
    if CallsOwn(effects[..i + 1], callee) {
      var k :| 0 <= k < i + 1 && effects[..i + 1][k].Invocation? && effects[..i + 1][k].call.onOwnReceiver &&
               effects[..i + 1][k].call.summary == Some(callee);
      if k < i { assert effects[..i][k] == effects[..i + 1][k]; }
    }
  }

  type Callers = map<Id, seq<Id>>

  function CallersOf(callers: Callers, id: Id): seq<Id> {
    if id in callers then callers[id] else []
  }

  /** What the summaries' own effects say: the containers they list and the calls on their own receivers. */
  method OwnFacts(summaries: seq<Summary>) returns (depended: DependsOn, callers: Callers)
    ensures forall id, c :: Has(depended, id, c) <==> Reads(summaries, id, c)
    ensures forall id :: id in depended ==> depended[id] != {}
    ensures forall id, callee :: id in CallersOf(callers, callee) <==> CallsOnSelf(summaries, id, callee)
  {
    depended, callers := map[], map[];
    for i := 0 to |summaries|
      invariant forall id, c :: Has(depended, id, c) <==> Reads(summaries[..i], id, c)
      invariant forall id :: id in depended ==> depended[id] != {}
      invariant forall id, callee :: id in CallersOf(callers, callee) <==> CallsOnSelf(summaries[..i], id, callee)
    {
      var id0, effects := summaries[i].id, EffectsOf(summaries[i]);
      for j := 0 to |effects|
        invariant forall id, c :: Has(depended, id, c) <==>
                    Reads(summaries[..i], id, c) || (id == id0 && ListsContainer(effects[..j], c))
        invariant forall id :: id in depended ==> depended[id] != {}
        invariant forall id, callee :: id in CallersOf(callers, callee) <==>
                    CallsOnSelf(summaries[..i], id, callee) || (id == id0 && CallsOwn(effects[..j], callee))
      {
        var effect := effects[j];
        forall c { ListsOneMore(effects, j, c); }
        forall callee { OwnCallsOneMore(effects, j, callee); }
        if effect.Interaction? {
          depended := With(depended, id0, effect.containers.Keys);
        }
        if effect.Invocation? && effect.call.onOwnReceiver && effect.call.summary.Some? {
          var callee := effect.call.summary.value;
          callers := callers[callee := CallersOf(callers, callee) + [id0]];
        }
      }
      assert effects[..|effects|] == effects;
      forall id, c { ReadsOneMore(summaries, i, id, c); }
      forall id, callee { CallsOneMore(summaries, i, id, callee); }
    }
    assert summaries[..|summaries|] == summaries;
  }

  function Listed(summaries: seq<Summary>): set<Construction> {
    set s, e, c | s in summaries && e in EffectsOf(s) && e.Interaction? && c in e.containers :: c
  }

  function Ids(summaries: seq<Summary>): set<Id> {
    set s | s in summaries :: s.id
  }

  /** Every pair a dependency could have. */
  function Universe(summaries: seq<Summary>): set<(Id, Construction)> {
    set id, c | id in Ids(summaries) && c in Listed(summaries) :: (id, c)
  }

  function Pairs(depended: DependsOn): set<(Id, Construction)> {
    set id, c | id in depended && c in depended[id] :: (id, c)
  }

  lemma SmallerSet<T>(a: set<T>, b: set<T>)
    requires a <= b
    ensures |a| <= |b| && (|a| == |b| ==> a == b)
  {
    assert b == a + (b - a);
    if a != b { assert b - a != {}; }
  }

  /** The facts so far follow from the summaries, and are closed but for what the queue still holds. */
  ghost predicate Underway(summaries: seq<Summary>, depended: DependsOn, queue: seq<Id>) {
    && (forall id, c :: Reads(summaries, id, c) ==> Has(depended, id, c))
    && (forall id, c :: Has(depended, id, c) ==> Depends(summaries, id, c))
    && (forall id :: id in depended ==> depended[id] != {})
    && Pairs(depended) <= Universe(summaries)
    && (forall id, callee, c :: CallsOnSelf(summaries, id, callee) && Has(depended, callee, c) && callee !in queue ==>
        Has(depended, id, c))
  }

  lemma {:induction false} ClosedIsComplete(summaries: seq<Summary>, depended: DependsOn, id: Id, c: Construction,
                                            n: nat)
    requires Underway(summaries, depended, []) && ChainReads(summaries, id, c, n)
    ensures Has(depended, id, c)
    decreases n
  {
    if !Reads(summaries, id, c) {
      var callee :| CallsOnSelf(summaries, id, callee) && ChainReads(summaries, callee, c, n - 1);
      ClosedIsComplete(summaries, depended, callee, c, n - 1);
    }
  }

  lemma FinishedIsDependency(summaries: seq<Summary>, depended: DependsOn)
    requires Underway(summaries, depended, [])
    ensures IsDependency(summaries, depended)
  {
    forall id, c | Depends(summaries, id, c)
      ensures Has(depended, id, c)
    {
      var n: nat :| ChainReads(summaries, id, c, n);
      ClosedIsComplete(summaries, depended, id, c, n);
    }
  }

  lemma OwnPairs(summaries: seq<Summary>, depended: DependsOn)
    requires forall id, c :: Has(depended, id, c) <==> Reads(summaries, id, c)
    ensures Pairs(depended) <= Universe(summaries)
  {
    forall id, c | Has(depended, id, c)
      ensures (id, c) in Universe(summaries)
    {
      assert Reads(summaries, id, c);
      var i :| 0 <= i < |summaries| && summaries[i].id == id && ListsContainer(EffectsOf(summaries[i]), c);
      var k :| 0 <= k < |EffectsOf(summaries[i])| && EffectsOf(summaries[i])[k].Interaction? &&
        c in EffectsOf(summaries[i])[k].containers;
      assert summaries[i] in summaries && EffectsOf(summaries[i])[k] in EffectsOf(summaries[i]);
    }
  }

  /** Adding what a callee depends on to its caller: whether it grew, and what stays true. */
  ghost predicate InnerUnderway(summaries: seq<Summary>, depended: DependsOn, queue: seq<Id>, id: Id,
                                own: set<Construction>, done: seq<Id>)
  {
    && (forall i, c :: Reads(summaries, i, c) ==> Has(depended, i, c))
    && (forall i, c :: Has(depended, i, c) ==> Depends(summaries, i, c))
    && (forall i :: i in depended ==> depended[i] != {})
    && Pairs(depended) <= Universe(summaries)
    && id in depended && depended[id] == own
    && (forall caller, c :: caller in done && c in own ==> Has(depended, caller, c))
    && (forall i, callee, c ::
          CallsOnSelf(summaries, i, callee) && Has(depended, callee, c) && callee !in queue && callee != id ==>
            Has(depended, i, c))
  }

  lemma CallerIsASummary(summaries: seq<Summary>, id: Id, callee: Id)
    requires CallsOnSelf(summaries, id, callee)
    ensures id in Ids(summaries)
  {
    var i :| 0 <= i < |summaries| && summaries[i].id == id && CallsOwn(EffectsOf(summaries[i]), callee);
    assert summaries[i] in summaries;
  }

  lemma GrownPairs(summaries: seq<Summary>, depended: DependsOn, caller: Id, id: Id, own: set<Construction>)
    requires Pairs(depended) <= Universe(summaries) && id in depended && depended[id] == own
    requires caller in Ids(summaries) && own != {}
    ensures Pairs(With(depended, caller, own)) <= Universe(summaries)
    ensures Pairs(depended) <= Pairs(With(depended, caller, own))
    ensures !(own <= Of(depended, caller)) ==>
            Pairs(depended) < Pairs(With(depended, caller, own))
  {
    var grown := With(depended, caller, own);
    forall i, c | Has(grown, i, c)
      ensures (i, c) in Universe(summaries)
    {
      if Has(depended, i, c) {
        assert (i, c) in Pairs(depended);
      } else {
        assert i == caller && (id, c) in Pairs(depended) && (id, c) in Universe(summaries);
      }
    }
    if !(own <= Of(depended, caller)) {
      var c :| c in own && !Has(depended, caller, c);
      assert Has(grown, caller, c) && (caller, c) in Pairs(grown);
      assert forall pair :: pair in Pairs(depended) ==> Has(depended, pair.0, pair.1);
    }
  }

  function QueuedIfNew(depended: DependsOn, queue: seq<Id>, own: set<Construction>, caller: Id): seq<Id> {
    if own <= Of(depended, caller) then queue else queue + [caller]
  }

  /** One caller of an id takes on what the id depends on. */
  lemma CallerGrows(summaries: seq<Summary>, depended: DependsOn, queue: seq<Id>, id: Id, own: set<Construction>,
                    done: seq<Id>, caller: Id)
    requires InnerUnderway(summaries, depended, queue, id, own, done) && CallsOnSelf(summaries, caller, id)
    ensures InnerUnderway(summaries, With(depended, caller, own), QueuedIfNew(depended, queue, own, caller), id, own,
                          done + [caller])
  {
    var grown := With(depended, caller, own);
    CallerIsASummary(summaries, caller, id);
    GrownPairs(summaries, depended, caller, id, own);
    forall i, c | Has(grown, i, c)
      ensures Depends(summaries, i, c)
    {
      if !Has(depended, i, c) {
        assert i == caller && Has(depended, id, c);
        DependsStep(summaries, caller, id, c);
      }
    }
    var queue' := QueuedIfNew(depended, queue, own, caller);
    forall i, callee, c | CallsOnSelf(summaries, i, callee) && Has(grown, callee, c) && callee !in queue' &&
      callee != id
      ensures Has(grown, i, c)
    {
      assert caller in queue + [caller];
      assert Has(depended, callee, c) && Has(depended, i, c);
    }
  }

  /** The callers to which some of `own` is new, each once, in the order of the list. */
  function Gaining(depended: DependsOn, own: set<Construction>, list: seq<Id>): (r: seq<Id>)
    ensures forall id :: id in r <==> id in list && !(own <= Of(depended, id))
    ensures Distinct(r)
  {
    if list == [] then [] else
      var front, last := list[..|list| - 1], list[|list| - 1];
      assert list == front + [last];
      var gained := Gaining(depended, own, front);
      if last in front || own <= Of(depended, last) then gained else gained + [last]
  }

  /** The callers done so far have taken on `own`, nothing else has changed, and those that gained by it are queued. */
  ghost predicate TakenOn(depended0: DependsOn, queue0: seq<Id>, own: set<Construction>, done: seq<Id>,
                          depended: DependsOn, queue: seq<Id>)
  {
    && (forall id :: Of(depended, id) == Of(depended0, id) + if id in done then own else {})
    && queue == queue0 + Gaining(depended0, own, done)
    && Pairs(depended0) <= Pairs(depended)
    && (queue == queue0 || Pairs(depended0) < Pairs(depended))
  }

  lemma GainingOneMore(depended0: DependsOn, depended: DependsOn, own: set<Construction>, done: seq<Id>, caller: Id)
    requires forall id :: Of(depended, id) == Of(depended0, id) + if id in done then own else {}
    ensures Gaining(depended0, own, done + [caller]) ==
            Gaining(depended0, own, done) + if own <= Of(depended, caller) then [] else [caller]
    ensures forall id :: Of(With(depended, caller, own), id) ==
                         Of(depended0, id) + if id in done + [caller] then own else {}
  {
    var more := done + [caller];
    assert more[..|more| - 1] == done && more[|more| - 1] == caller;
  }

  lemma TakenOnOneMore(summaries: seq<Summary>, depended0: DependsOn, queue0: seq<Id>, id: Id, own: set<Construction>,
                       done: seq<Id>, depended: DependsOn, queue: seq<Id>, caller: Id)
    requires TakenOn(depended0, queue0, own, done, depended, queue)
    requires InnerUnderway(summaries, depended, queue, id, own, done) && CallsOnSelf(summaries, caller, id)
    ensures TakenOn(depended0, queue0, own, done + [caller], With(depended, caller, own),
                    QueuedIfNew(depended, queue, own, caller))
  {
    CallerIsASummary(summaries, caller, id);
    GrownPairs(summaries, depended, caller, id, own);
    GainingOneMore(depended0, depended, own, done, caller);
  }

  lemma NextCaller(summaries: seq<Summary>, depended0: DependsOn, queue0: seq<Id>, id: Id, own: set<Construction>,
                   done: seq<Id>, done': seq<Id>, depended: DependsOn, queue: seq<Id>, caller: Id)
    requires CallsOnSelf(summaries, caller, id) && done' == done + [caller]
    requires TakenOn(depended0, queue0, own, done, depended, queue)
    requires InnerUnderway(summaries, depended, queue, id, own, done)
    ensures TakenOn(depended0, queue0, own, done', With(depended, caller, own),
                    QueuedIfNew(depended, queue, own, caller))
    ensures InnerUnderway(summaries, With(depended, caller, own), QueuedIfNew(depended, queue, own, caller), id, own,
                          done')
  {
    TakenOnOneMore(summaries, depended0, queue0, id, own, done, depended, queue, caller);
    CallerGrows(summaries, depended, queue, id, own, done, caller);
  }

  /** Every caller of an id takes on what the id depends on, and exactly those to which some of it is new are queued. */
  method GrowCallers(ghost summaries: seq<Summary>, depended0: DependsOn, queue0: seq<Id>, id: Id, list: seq<Id>)
    returns (depended: DependsOn, queue: seq<Id>)
    requires id in depended0 && InnerUnderway(summaries, depended0, queue0, id, depended0[id], [])
    requires forall caller :: caller in list ==> CallsOnSelf(summaries, caller, id)
    ensures TakenOn(depended0, queue0, depended0[id], list, depended, queue)
    ensures InnerUnderway(summaries, depended, queue, id, depended0[id], list)
  {
    depended, queue := depended0, queue0;
    var own := depended[id];
    for k := 0 to |list|
      invariant TakenOn(depended0, queue0, own, list[..k], depended, queue)
      invariant InnerUnderway(summaries, depended, queue, id, own, list[..k])
    {
      var caller := list[k];
      assert list[..k + 1] == list[..k] + [caller];
      NextCaller(summaries, depended0, queue0, id, own, list[..k], list[..k + 1], depended, queue, caller);
      var grew := !(own <= Of(depended, caller));
      depended := With(depended, caller, own);
      if grew {
        queue := queue + [caller];
      }
    }
    assert list[..|list|] == list;
  }

  lemma InnerStart(summaries: seq<Summary>, depended: DependsOn, queue: seq<Id>, id: Id)
    requires Underway(summaries, depended, queue + [id]) && id in depended
    ensures InnerUnderway(summaries, depended, queue, id, depended[id], [])
  {
  }

  lemma InnerEnd(summaries: seq<Summary>, depended: DependsOn, queue: seq<Id>, id: Id, own: set<Construction>,
                 list: seq<Id>)
    requires InnerUnderway(summaries, depended, queue, id, own, list)
    requires forall caller :: CallsOnSelf(summaries, caller, id) ==> caller in list
    ensures Underway(summaries, depended, queue)
  {
  }

  ghost predicate AreCallers(summaries: seq<Summary>, callers: Callers) {
    forall id, callee :: id in CallersOf(callers, callee) <==> CallsOnSelf(summaries, id, callee)
  }

  /** An id taken off the queue passes what it depends on to its callers. */
  method PassOn(ghost summaries: seq<Summary>, callers: Callers, depended0: DependsOn, queue0: seq<Id>, id: Id)
    returns (depended: DependsOn, queue: seq<Id>)
    requires Underway(summaries, depended0, queue0 + [id]) && AreCallers(summaries, callers)
    ensures Underway(summaries, depended, queue)
    ensures Pairs(depended0) <= Pairs(depended)
    ensures queue == queue0 || Pairs(depended0) < Pairs(depended)
  {
    depended, queue := depended0, queue0;
    if id in depended {
      InnerStart(summaries, depended, queue, id);
      depended, queue := GrowCallers(summaries, depended, queue, id, CallersOf(callers, id));
      InnerEnd(summaries, depended, queue, id, depended0[id], CallersOf(callers, id));
    }
  }

  /** What is left to find, or else the queue, gets smaller. */
  lemma LessToFind(summaries: seq<Summary>, depended0: DependsOn, depended: DependsOn)
    requires Pairs(depended0) <= Pairs(depended) <= Universe(summaries)
    ensures |Pairs(depended0)| <= |Pairs(depended)| <= |Universe(summaries)|
    ensures Pairs(depended0) < Pairs(depended) ==> |Pairs(depended0)| < |Pairs(depended)|
  {
    SmallerSet(Pairs(depended), Universe(summaries));
    SmallerSet(Pairs(depended0), Pairs(depended));
  }

  lemma StartsUnderway(summaries: seq<Summary>, depended: DependsOn, queue: seq<Id>)
    requires forall id, c :: Has(depended, id, c) <==> Reads(summaries, id, c)
    requires forall id :: id in depended ==> depended[id] != {} && id in queue
    ensures Underway(summaries, depended, queue)
  {
    OwnPairs(summaries, depended);
    forall id, c | Reads(summaries, id, c)
      ensures Depends(summaries, id, c)
    {
      DependsReads(summaries, id, c);
    }
  }

  /** Saturates the map along the calls on own receivers; what comes out is the one map `IsDependency` allows. */
  method ConstructionsDependedOn(summaries: seq<Summary>) returns (depended: DependsOn)
    ensures IsDependency(summaries, depended)
  {
    var callers;
    depended, callers := OwnFacts(summaries);
    var queue := KeysInSomeOrder(depended);
    StartsUnderway(summaries, depended, queue);
    while |queue| > 0
      invariant Underway(summaries, depended, queue)
      decreases |Universe(summaries)| - |Pairs(depended)|, |queue|
    {
      ghost var before := depended;
      var id := queue[|queue| - 1];
      assert queue == queue[..|queue| - 1] + [id];
      depended, queue := PassOn(summaries, callers, depended, queue[..|queue| - 1], id);
      LessToFind(summaries, before, depended);
    }
    FinishedIsDependency(summaries, depended);
  }

  method KeysInSomeOrder(depended: DependsOn) returns (keys: seq<Id>)
    ensures forall id :: id in depended ==> id in keys
  {
    keys := [];
    var left := depended.Keys;
    while left != {}
      invariant left <= depended.Keys
      invariant forall id :: id in depended ==> id in keys || id in left
      decreases left
    {
      var id :| id in left;
      keys := keys + [id];
      left := left - {id};
    }
  }
}
