/** Dropping the receiver records no copy is made from, and why no reader can tell. */
module ConstructionPruning {
  import opened Json
  import opened Sequences
  import opened Constructions
  import opened ConstructionCopies
  import opened ConstructionMeaning

  /** What a call's callee depends on, where it depends on anything. */
  function DependedOf(dependsOn: DependsOn, call: Call): Option<set<Construction>> {
    if call.summary.Some? && call.summary.value in dependsOn then Some(dependsOn[call.summary.value]) else None
  }

  predicate AnyDepended(dependsOn: DependsOn, call: Call) {
    call.summary.Some? && exists c :: c in call.made && Has(dependsOn, call.summary.value, c)
  }

  function PrunedCall(dependsOn: DependsOn, call: Call): Call {
    call.(onOwnReceiver := call.onOwnReceiver && DependedOf(dependsOn, call).Some?,
          made := if AnyDepended(dependsOn, call) then call.made else [])
  }

  function PrunedEffect(dependsOn: DependsOn, effect: Effect): Effect {
    if effect.Invocation? then Invocation(PrunedCall(dependsOn, effect.call)) else effect
  }

  function PrunedSummary(dependsOn: DependsOn, s: Summary): Summary {
    MapSummary(e => PrunedEffect(dependsOn, e), s)
  }

  ghost predicate IsPruned(dependsOn: DependsOn, before: seq<Summary>, after: seq<Summary>) {
    |after| == |before| && forall i :: 0 <= i < |after| ==> after[i] == PrunedSummary(dependsOn, before[i])
  }

  /** Overwrites each summary of the array with its pruned form; `dependsOn` is the map before any was pruned. */
  method DropIdleReceivers(summaries: array<Summary>)
    modifies summaries
    ensures forall dependsOn :: IsDependency(old(summaries[..]), dependsOn) ==>
            IsPruned(dependsOn, old(summaries[..]), summaries[..])
  {
    var depended := ConstructionsDependedOn(summaries[..]);
    for i := 0 to summaries.Length
      invariant forall k :: 0 <= k < i ==> summaries[k] == PrunedSummary(depended, old(summaries[k]))
      invariant forall k :: i <= k < summaries.Length ==> summaries[k] == old(summaries[k])
    {
      var transitions := PrunedTransitions(depended, summaries[i].transitions);
      summaries[i] := summaries[i].(transitions := transitions);
    }
    forall dependsOn | IsDependency(old(summaries[..]), dependsOn)
      ensures IsPruned(dependsOn, old(summaries[..]), summaries[..])
    {
      DependencyIsUnique(old(summaries[..]), dependsOn, depended);
    }
  }

  method PrunedTransitions(dependsOn: DependsOn, from: seq<Transition>) returns (to: seq<Transition>)
    ensures to == MapTransitions(e => PrunedEffect(dependsOn, e), from)
  {
    to := [];
    for i := 0 to |from|
      invariant |to| == i && forall k :: 0 <= k < i ==> IsPrunedEffects(dependsOn, from[k].effects, to[k].effects)
    {
      var effects := [];
      for j := 0 to |from[i].effects|
        invariant |effects| == j && forall k :: 0 <= k < j ==> effects[k] == PrunedEffect(dependsOn, from[i].effects[k])
      {
        effects := effects + [PrunedEffect(dependsOn, from[i].effects[j])];
      }
      to := to + [Transition(effects)];
    }
    PrunedTransitionsAre(dependsOn, from, to);
  }

  ghost predicate IsPrunedEffects(dependsOn: DependsOn, from: seq<Effect>, to: seq<Effect>) {
    |to| == |from| && forall k :: 0 <= k < |to| ==> to[k] == PrunedEffect(dependsOn, from[k])
  }

  lemma PrunedTransitionsAre(dependsOn: DependsOn, from: seq<Transition>, to: seq<Transition>)
    requires ArePruned(dependsOn, from, to)
    ensures to == MapTransitions(e => PrunedEffect(dependsOn, e), from)
  {
    var mapped := MapTransitions(e => PrunedEffect(dependsOn, e), from);
    forall k | 0 <= k < |from|
      ensures to[k] == mapped[k]
    {
      assert to[k].effects == mapped[k].effects;
    }
  }

  lemma PrunedEffects(dependsOn: DependsOn, s: Summary)
    ensures IsPrunedEffects(dependsOn, EffectsOf(s), EffectsOf(PrunedSummary(dependsOn, s)))
  {
    EffectsMapped(e => PrunedEffect(dependsOn, e), s);
  }

  // ------------------------------------------------------------ the dependency map

  lemma PrunedReads(dependsOn: DependsOn, before: seq<Summary>, after: seq<Summary>, id: Id, c: Construction)
    requires IsPruned(dependsOn, before, after)
    ensures Reads(before, id, c) <==> Reads(after, id, c)
  {
    forall i | 0 <= i < |before|
      ensures ListsContainer(EffectsOf(before[i]), c) <==> ListsContainer(EffectsOf(after[i]), c)
    {
      PrunedEffects(dependsOn, before[i]);
      SameContainers(dependsOn, EffectsOf(before[i]), EffectsOf(after[i]), c);
    }
  }

  lemma SameContainers(dependsOn: DependsOn, before: seq<Effect>, after: seq<Effect>, c: Construction)
    requires IsPrunedEffects(dependsOn, before, after)
    ensures ListsContainer(before, c) <==> ListsContainer(after, c)
  {
    if ListsContainer(before, c) {
      var k :| 0 <= k < |before| && before[k].Interaction? && c in before[k].containers;
      assert after[k] == before[k];
    }
    if ListsContainer(after, c) {
      var k :| 0 <= k < |after| && after[k].Interaction? && c in after[k].containers;
      assert after[k] == before[k];
    }
  }

  /** Pruning keeps just the calls on own receivers whose callees depend on something. */
  lemma PrunedCallsOnSelf(dependsOn: DependsOn, before: seq<Summary>, after: seq<Summary>, id: Id, callee: Id)
    requires IsPruned(dependsOn, before, after)
    ensures CallsOnSelf(after, id, callee) <==> CallsOnSelf(before, id, callee) && callee in dependsOn
  {
    forall i | 0 <= i < |before|
      ensures CallsOwn(EffectsOf(after[i]), callee) <==> CallsOwn(EffectsOf(before[i]), callee) && callee in dependsOn
    {
      PrunedEffects(dependsOn, before[i]);
      SameOwnCalls(dependsOn, EffectsOf(before[i]), EffectsOf(after[i]), callee);
    }
  }

  lemma SameOwnCalls(dependsOn: DependsOn, before: seq<Effect>, after: seq<Effect>, callee: Id)
    requires IsPrunedEffects(dependsOn, before, after)
    ensures CallsOwn(after, callee) <==> CallsOwn(before, callee) && callee in dependsOn
  {
    if CallsOwn(after, callee) {
      var k :| 0 <= k < |after| && after[k].Invocation? && after[k].call.onOwnReceiver &&
        after[k].call.summary == Some(callee);
      assert after[k] == PrunedEffect(dependsOn, before[k]);
    }
    if CallsOwn(before, callee) && callee in dependsOn {
      var k :| 0 <= k < |before| && before[k].Invocation? && before[k].call.onOwnReceiver &&
        before[k].call.summary == Some(callee);
      assert after[k] == PrunedEffect(dependsOn, before[k]);
    }
  }

  lemma {:induction false} ChainKept(dependsOn: DependsOn, before: seq<Summary>, after: seq<Summary>, id: Id,
                                     c: Construction, n: nat)
    requires IsPruned(dependsOn, before, after) && IsDependency(before, dependsOn)
    requires ChainReads(before, id, c, n)
    ensures ChainReads(after, id, c, n)
    decreases n
  {
    PrunedReads(dependsOn, before, after, id, c);
    if !Reads(before, id, c) {
      var callee :| CallsOnSelf(before, id, callee) && ChainReads(before, callee, c, n - 1);
      assert Depends(before, callee, c);
      assert Has(dependsOn, callee, c);
      PrunedCallsOnSelf(dependsOn, before, after, id, callee);
      ChainKept(dependsOn, before, after, callee, c, n - 1);
    }
  }

  lemma {:induction false} ChainWas(dependsOn: DependsOn, before: seq<Summary>, after: seq<Summary>, id: Id,
                                    c: Construction, n: nat)
    requires IsPruned(dependsOn, before, after) && ChainReads(after, id, c, n)
    ensures ChainReads(before, id, c, n)
    decreases n
  {
    PrunedReads(dependsOn, before, after, id, c);
    if !Reads(after, id, c) {
      var callee :| CallsOnSelf(after, id, callee) && ChainReads(after, callee, c, n - 1);
      PrunedCallsOnSelf(dependsOn, before, after, id, callee);
      ChainWas(dependsOn, before, after, callee, c, n - 1);
    }
  }

  /** The dependency map is the same before and after. */
  lemma PrunedDependency(dependsOn: DependsOn, before: seq<Summary>, after: seq<Summary>)
    requires IsPruned(dependsOn, before, after) && IsDependency(before, dependsOn)
    ensures IsDependency(after, dependsOn)
  {
    forall id, c
      ensures Depends(before, id, c) <==> Depends(after, id, c)
    {
      if Depends(before, id, c) {
        var n: nat :| ChainReads(before, id, c, n);
        ChainKept(dependsOn, before, after, id, c, n);
      }
      if Depends(after, id, c) {
        var n: nat :| ChainReads(after, id, c, n);
        ChainWas(dependsOn, before, after, id, c, n);
      }
    }
  }

  // -------------------------------------------------------------------- the links

  /** Two calls say the same of what they reach. */
  predicate SameLink(a: Call, b: Call) {
    a.callee == b.callee && a.summary == b.summary && a.possible == b.possible
  }

  /** Equal effects, or invocations with the same link. */
  predicate SameButReceiver(a: Effect, b: Effect) {
    if a.Invocation? then b.Invocation? && SameLink(a.call, b.call) else a == b
  }

  predicate SameEffects(a: seq<Effect>, b: seq<Effect>) {
    |a| == |b| && forall i :: 0 <= i < |a| ==> SameButReceiver(a[i], b[i])
  }

  /** Transition by transition, effect by effect. */
  predicate SameTransitions(a: seq<Transition>, b: seq<Transition>) {
    |a| == |b| && forall i :: 0 <= i < |a| ==> SameEffects(a[i].effects, b[i].effects)
  }

  lemma {:induction false} SameFlattened(a: seq<Transition>, b: seq<Transition>)
    requires SameTransitions(a, b)
    ensures SameEffects(FlatEffects(a), FlatEffects(b))
  {
    if a != [] {
      assert SameEffects(a[0].effects, b[0].effects);
      SameFlattened(a[1..], b[1..]);
    }
  }

  /** Pruning leaves the receiver's constructions as they were, or takes away ones the callee does not depend on. */
  lemma PrunedMade(dependsOn: DependsOn, call: Call, on: Option<Construction>)
    requires call.summary.Some? && forall id :: id in dependsOn ==> dependsOn[id] != {}
    ensures var made, made' := MadeAt(call, on), MadeAt(PrunedCall(dependsOn, call), on);
            made == made' || (made' == [] && forall c :: c in made ==> !Has(dependsOn, call.summary.value, c))
  {
  }

  lemma PrunedLink(byId: ById, byId': ById, dependsOn: DependsOn, call: Call, on: Option<Construction>)
    requires byId.Keys == byId'.Keys
    requires forall id :: id in dependsOn ==> dependsOn[id] != {}
    ensures SameLink(LinkedCall(byId, dependsOn, call, on),
                     LinkedCall(byId', dependsOn, PrunedCall(dependsOn, call), on))
  {
    var pruned := PrunedCall(dependsOn, call);
    if call.summary.Some? {
      var made := MadeAt(call, on);
      PrunedMade(dependsOn, call, on);
      if made == MadeAt(pruned, on) {
        SameOver(byId, byId', dependsOn, call, pruned, made);
      } else {
        IdleOver(byId, dependsOn, call, made);
      }
    }
  }

  lemma SameOver(byId: ById, byId': ById, dependsOn: DependsOn, call: Call, pruned: Call, made: seq<Construction>)
    requires byId.Keys == byId'.Keys && SameLink(call, pruned)
    ensures SameLink(LinkedOver(byId, dependsOn, call, made), LinkedOver(byId', dependsOn, pruned, made))
  {
    if call.summary.Some? { SameTargets(byId, byId', dependsOn, call.summary.value, made); }
  }

  lemma IdleOver(byId: ById, dependsOn: DependsOn, call: Call, made: seq<Construction>)
    requires call.summary.Some? && forall c :: c in made ==> !Has(dependsOn, call.summary.value, c)
    ensures SameLink(LinkedOver(byId, dependsOn, call, made), call)
  {
    AllItself(byId, dependsOn, call.summary.value, made);
  }

  lemma SameTargets(byId: ById, byId': ById, dependsOn: DependsOn, target: Id, made: seq<Construction>)
    requires byId.Keys == byId'.Keys
    ensures Targets(byId, dependsOn, target, made) == Targets(byId', dependsOn, target, made)
  {
  }

  /** A callee that depends on none of the constructions is the one target on all of them. */
  lemma AllItself(byId: ById, dependsOn: DependsOn, target: Id, made: seq<Construction>)
    requires forall c :: c in made ==> !Has(dependsOn, target, c)
    ensures made != [] ==> Unique(Targets(byId, dependsOn, target, made)) == [target]
  {
    if made != [] {
      var targets := Targets(byId, dependsOn, target, made);
      forall i | 0 <= i < |targets|
        ensures targets[i] == target
      {
        assert made[i] in made;
      }
      UniqueOfOne(targets, target);
    }
  }

  lemma IndexKeys(summaries: seq<Summary>)
    ensures IndexById(summaries).Keys == Ids(summaries)
  {
  }

  lemma SameIds(before: seq<Summary>, after: seq<Summary>)
    requires |before| == |after| && forall i :: 0 <= i < |before| ==> after[i].id == before[i].id
    ensures Ids(before) <= Ids(after)
  {
    forall id | id in Ids(before)
      ensures id in Ids(after)
    {
      var s :| s in before && s.id == id;
      var i :| 0 <= i < |before| && before[i] == s;
      assert after[i] in after;
    }
  }

  lemma PrunedIds(dependsOn: DependsOn, before: seq<Summary>, after: seq<Summary>)
    requires IsPruned(dependsOn, before, after) && OwnIds(before)
    ensures OwnIds(after) && IndexById(after).Keys == IndexById(before).Keys
  {
    forall i | 0 <= i < |before|
      ensures after[i].id == before[i].id
    {
    }
    SameIds(before, after);
    SameIds(after, before);
    IndexKeys(before);
    IndexKeys(after);
  }

  lemma PrunedIndex(dependsOn: DependsOn, before: seq<Summary>, after: seq<Summary>, id: Id)
    requires IsPruned(dependsOn, before, after) && OwnIds(before) && OwnIds(after) && id in IndexById(before)
    ensures id in IndexById(after) && IndexById(after)[id] == PrunedSummary(dependsOn, IndexById(before)[id])
  {
    var i :| 0 <= i < |before| && before[i] == IndexById(before)[id];
    OwnEntry(before, i);
    OwnEntry(after, i);
  }

  lemma PrunedLinks(byId: ById, byId': ById, dependsOn: DependsOn, before: seq<Effect>, after: seq<Effect>,
                    on: Option<Construction>, linked: seq<Effect>, linked': seq<Effect>)
    requires byId.Keys == byId'.Keys
    requires forall id :: id in dependsOn ==> dependsOn[id] != {}
    requires IsPrunedEffects(dependsOn, before, after)
    requires IsLinked(byId, dependsOn, before, on, linked) && IsLinked(byId', dependsOn, after, on, linked')
    ensures SameEffects(linked, linked')
  {
    forall i | 0 <= i < |linked|
      ensures SameButReceiver(linked[i], linked'[i])
    {
      assert linked[i] == LinkedEffect(byId, dependsOn, before[i], on) &&
             linked'[i] == LinkedEffect(byId', dependsOn, after[i], on);
      assert after[i] == PrunedEffect(dependsOn, before[i]);
      if before[i].Invocation? { PrunedLink(byId, byId', dependsOn, before[i].call, on); }
    }
  }

  lemma PrunedBare(dependsOn: DependsOn, s: Summary, c: Construction)
    ensures IsPrunedEffects(dependsOn, EffectsOf(OnConstruction(s, c)),
                            EffectsOf(OnConstruction(PrunedSummary(dependsOn, s), c)))
  {
    BareEffects(s, c);
    BareEffects(PrunedSummary(dependsOn, s), c);
    PrunedEffects(dependsOn, s);
    var own, own' := EffectsOf(s), EffectsOf(PrunedSummary(dependsOn, s));
    var bare, bare' := EffectsOf(OnConstruction(s, c)), EffectsOf(OnConstruction(PrunedSummary(dependsOn, s), c));
    forall k | 0 <= k < |bare|
      ensures bare'[k] == PrunedEffect(dependsOn, bare[k])
    {
      assert own'[k] == PrunedEffect(dependsOn, own[k]);
    }
  }

  /** Transition by transition, `after` is the pruned form of `before`. */
  ghost predicate ArePruned(dependsOn: DependsOn, before: seq<Transition>, after: seq<Transition>) {
    |after| == |before| && forall i :: 0 <= i < |after| ==>
      IsPrunedEffects(dependsOn, before[i].effects, after[i].effects)
  }

  /** The transitions linked, the pruned ones beside those that are not: the same but for receiver records. */
  lemma PrunedTransitionLinks(byId: ById, byId': ById, dependsOn: DependsOn, before: seq<Transition>,
                              after: seq<Transition>, on: Option<Construction>)
    requires byId.Keys == byId'.Keys && forall id :: id in dependsOn ==> dependsOn[id] != {}
    requires ArePruned(dependsOn, before, after)
    ensures SameTransitions(MapTransitions(e => LinkedEffect(byId, dependsOn, e, on), before),
                            MapTransitions(e => LinkedEffect(byId', dependsOn, e, on), after))
  {
    var linked := MapTransitions(e => LinkedEffect(byId, dependsOn, e, on), before);
    var linked' := MapTransitions(e => LinkedEffect(byId', dependsOn, e, on), after);
    forall i | 0 <= i < |before|
      ensures SameEffects(linked[i].effects, linked'[i].effects)
    {
      assert IsPrunedEffects(dependsOn, before[i].effects, after[i].effects);
      PrunedLinks(byId, byId', dependsOn, before[i].effects, after[i].effects, on, linked[i].effects,
                  linked'[i].effects);
    }
  }

  lemma PrunedBareTransitions(dependsOn: DependsOn, s: Summary, c: Construction)
    ensures ArePruned(dependsOn, OnConstruction(s, c).transitions,
                      OnConstruction(PrunedSummary(dependsOn, s), c).transitions)
  {
    var bare, bare' := OnConstruction(s, c).transitions, OnConstruction(PrunedSummary(dependsOn, s), c).transitions;
    forall i | 0 <= i < |bare|
      ensures IsPrunedEffects(dependsOn, bare[i].effects, bare'[i].effects)
    {
      forall k | 0 <= k < |bare[i].effects|
        ensures bare'[i].effects[k] == PrunedEffect(dependsOn, bare[i].effects[k])
      {
        assert PrunedSummary(dependsOn, s).transitions[i].effects[k] ==
               PrunedEffect(dependsOn, s.transitions[i].effects[k]);
      }
    }
  }

  predicate SameButRecords(a: Summary, b: Summary) {
    a.id == b.id && a.receiver == b.receiver && SameTransitions(a.transitions, b.transitions)
  }

  /** The linked form of every id is the same, but for the receiver records its calls still list. */
  ghost predicate SameIdeal(byId: ById, byId': ById, dependsOn: DependsOn, id: Id) {
    var a, b := Ideal(byId, dependsOn, id), Ideal(byId', dependsOn, id);
    a.Some? == b.Some? && (a.Some? ==> SameButRecords(a.value, b.value))
  }

  lemma PrunedIdeal(byId: ById, byId': ById, dependsOn: DependsOn, id: Id)
    requires byId.Keys == byId'.Keys
    requires forall k :: k in byId ==> byId'[k] == PrunedSummary(dependsOn, byId[k])
    requires forall k :: k in dependsOn ==> dependsOn[k] != {}
    ensures SameIdeal(byId, byId', dependsOn, id)
  {
    if id in byId {
      PrunedTransitionLinks(byId, byId', dependsOn, byId[id].transitions, byId'[id].transitions, None);
    } else if IsCopy(byId, dependsOn, id) {
      PrunedBareTransitions(dependsOn, byId[id.of], id.construction);
      PrunedTransitionLinks(byId, byId', dependsOn, Bare(byId, id).transitions, Bare(byId', id).transitions,
                            Some(id.construction));
    }
  }

  lemma SameSteps(byId: ById, byId': ById, dependsOn: DependsOn, from: Id, to: Id)
    requires SameIdeal(byId, byId', dependsOn, from)
    ensures LinksTo(byId, dependsOn, from, to) <==> LinksTo(byId', dependsOn, from, to)
  {
    var a, b := Ideal(byId, dependsOn, from), Ideal(byId', dependsOn, from);
    if a.Some? {
      SameFlattened(a.value.transitions, b.value.transitions);
      var x, y := EffectsOf(a.value), EffectsOf(b.value);
      forall i | 0 <= i < |x|
        ensures (x[i].Invocation? && CallPoints(x[i].call, to)) <==> (y[i].Invocation? && CallPoints(y[i].call, to))
      {
        assert SameButReceiver(x[i], y[i]);
      }
    }
  }

  lemma {:induction false} SameNeeds(byId: ById, byId': ById, dependsOn: DependsOn, id: Id, n: nat)
    requires byId.Keys == byId'.Keys
    requires forall k :: SameIdeal(byId, byId', dependsOn, k)
    ensures NeededIn(byId, dependsOn, id, n) <==> NeededIn(byId', dependsOn, id, n)
    decreases n
  {
    if n > 0 {
      var m: nat := n - 1;
      forall from
        ensures NeededIn(byId, dependsOn, from, m) && LinksTo(byId, dependsOn, from, id) <==>
                NeededIn(byId', dependsOn, from, m) && LinksTo(byId', dependsOn, from, id)
      {
        SameNeeds(byId, byId', dependsOn, from, m);
        SameSteps(byId, byId', dependsOn, from, id);
      }
    }
  }

  /** Pruning is invisible: the dependency map, the copies made and every call's link come out as they would have. */
  lemma PruningIsInvisible(dependsOn: DependsOn, before: seq<Summary>, after: seq<Summary>)
    requires OwnIds(before) && IsDependency(before, dependsOn) && IsPruned(dependsOn, before, after)
    ensures OwnIds(after) && IsDependency(after, dependsOn)
    ensures forall id :: SameIdeal(IndexById(before), IndexById(after), dependsOn, id)
    ensures forall id :: IsCopy(IndexById(before), dependsOn, id) && Needed(IndexById(before), dependsOn, id) <==>
                         IsCopy(IndexById(after), dependsOn, id) && Needed(IndexById(after), dependsOn, id)
  {
    var byId, byId' := IndexById(before), IndexById(after);
    PrunedDependency(dependsOn, before, after);
    PrunedIds(dependsOn, before, after);
    forall id | id in byId
      ensures id in byId' && byId'[id] == PrunedSummary(dependsOn, byId[id])
    {
      PrunedIndex(dependsOn, before, after, id);
    }
    forall id
      ensures SameIdeal(byId, byId', dependsOn, id)
    {
      PrunedIdeal(byId, byId', dependsOn, id);
    }
    forall id
      ensures Needed(byId, dependsOn, id) <==> Needed(byId', dependsOn, id)
    {
      forall n: nat
        ensures NeededIn(byId, dependsOn, id, n) <==> NeededIn(byId', dependsOn, id, n)
      {
        SameNeeds(byId, byId', dependsOn, id, n);
      }
    }
  }

  // ------------------------------------------------------------- the order of the copies

  lemma {:induction false} SameCopiesFor(
      byId: ById, byId': ById, dependsOn: DependsOn, target: Id, made: seq<Construction>)
    requires byId.Keys == byId'.Keys
    ensures CopiesFor(byId, dependsOn, target, made) == CopiesFor(byId', dependsOn, target, made)
  {
    if made != [] { SameCopiesFor(byId, byId', dependsOn, target, made[1..]); }
  }

  lemma {:induction false} NoCopiesFor(byId: ById, dependsOn: DependsOn, target: Id, made: seq<Construction>)
    requires forall c :: c in made ==> !Has(dependsOn, target, c)
    ensures CopiesFor(byId, dependsOn, target, made) == []
  {
    if made != [] { NoCopiesFor(byId, dependsOn, target, made[1..]); }
  }

  lemma SameCopiesOfCall(byId: ById, byId': ById, dependsOn: DependsOn, call: Call, on: Option<Construction>)
    requires byId.Keys == byId'.Keys && forall id :: id in dependsOn ==> dependsOn[id] != {}
    ensures CopiesOfCall(byId, dependsOn, call, on) == CopiesOfCall(byId', dependsOn, PrunedCall(dependsOn, call), on)
  {
    var pruned := PrunedCall(dependsOn, call);
    if call.summary.Some? {
      PrunedMade(dependsOn, call, on);
      if MadeAt(call, on) == MadeAt(pruned, on) {
        SameCopiesFor(byId, byId', dependsOn, call.summary.value, MadeAt(call, on));
      } else {
        NoCopiesFor(byId, dependsOn, call.summary.value, MadeAt(call, on));
      }
    }
  }

  lemma {:induction false} SameCopiesOf(
      byId: ById, byId': ById, dependsOn: DependsOn, before: seq<Effect>, after: seq<Effect>, on: Option<Construction>)
    requires byId.Keys == byId'.Keys && forall id :: id in dependsOn ==> dependsOn[id] != {}
    requires IsPrunedEffects(dependsOn, before, after)
    ensures CopiesOf(byId, dependsOn, before, on) == CopiesOf(byId', dependsOn, after, on)
  {
    if before != [] {
      assert after[0] == PrunedEffect(dependsOn, before[0]);
      if before[0].Invocation? { SameCopiesOfCall(byId, byId', dependsOn, before[0].call, on); }
      SameCopiesOf(byId, byId', dependsOn, before[1..], after[1..], on);
    }
  }

  /** The same copies are run on, in the same order, from every summary and every copy. */
  ghost predicate SameCopies(byId: ById, byId': ById, dependsOn: DependsOn) {
    && byId.Keys == byId'.Keys
    && forall id :: id in byId || IsCopy(byId, dependsOn, id) ==>
         CopiesFrom(byId, dependsOn, id) == CopiesFrom(byId', dependsOn, id)
  }

  lemma PrunedCopies(byId: ById, byId': ById, dependsOn: DependsOn)
    requires byId.Keys == byId'.Keys && forall id :: id in dependsOn ==> dependsOn[id] != {}
    requires forall k :: k in byId ==> byId'[k] == PrunedSummary(dependsOn, byId[k])
    ensures SameCopies(byId, byId', dependsOn)
  {
    forall id | id in byId || IsCopy(byId, dependsOn, id)
      ensures CopiesFrom(byId, dependsOn, id) == CopiesFrom(byId', dependsOn, id)
    {
      if id in byId {
        PrunedEffects(dependsOn, byId[id]);
      } else {
        PrunedBare(dependsOn, byId[id.of], id.construction);
      }
      SameCopiesOf(byId, byId', dependsOn, EffectsOf(SourceOf(byId, id)), EffectsOf(SourceOf(byId', id)),
                   RunsOn(byId, id));
    }
  }

  lemma {:induction false} SameStart(
      byId: ById, byId': ById, dependsOn: DependsOn, before: seq<Summary>, after: seq<Summary>)
    requires byId.Keys == byId'.Keys && forall id :: id in dependsOn ==> dependsOn[id] != {}
    requires IsPruned(dependsOn, before, after)
    ensures CopiesOfAll(byId, dependsOn, before) == CopiesOfAll(byId', dependsOn, after)
  {
    if before != [] {
      var last := |before| - 1;
      PrunedEffects(dependsOn, before[last]);
      SameCopiesOf(byId, byId', dependsOn, EffectsOf(before[last]), EffectsOf(after[last]), None);
      SameStart(byId, byId', dependsOn, before[..last], after[..last]);
    }
  }

  lemma {:induction false} SameCompleted(byId: ById, byId': ById, dependsOn: DependsOn, q: Queue)
    requires SameCopies(byId, byId', dependsOn)
    requires Orderly(byId, dependsOn, q) && Orderly(byId', dependsOn, q)
    ensures Completed(byId, dependsOn, q) == Completed(byId', dependsOn, q)
    decreases |CopyUniverse(dependsOn)| - |q.order|, |q.unlinked|
  {
    if q.unlinked != [] {
      assert q.unlinked[|q.unlinked| - 1] in q.unlinked;
      assert LinkedNext(byId, dependsOn, q) == LinkedNext(byId', dependsOn, q);
      SameCompleted(byId, byId', dependsOn, LinkedNext(byId, dependsOn, q));
    }
  }

  /** Pruning keeps the order in which the copies are made. */
  lemma SameOrder(dependsOn: DependsOn, before: seq<Summary>, after: seq<Summary>)
    requires OwnIds(before) && IsDependency(before, dependsOn) && IsPruned(dependsOn, before, after)
    ensures CopyOrder(before, dependsOn) == CopyOrder(after, dependsOn)
  {
    var byId, byId' := IndexById(before), IndexById(after);
    PrunedIds(dependsOn, before, after);
    forall id | id in byId
      ensures id in byId' && byId'[id] == PrunedSummary(dependsOn, byId[id])
    {
      PrunedIndex(dependsOn, before, after, id);
    }
    PrunedCopies(byId, byId', dependsOn);
    SameStart(byId, byId', dependsOn, before, after);
    SameCompleted(byId, byId', dependsOn, Started(byId, dependsOn, before));
  }

  /** So specialising after pruning gives the same list, summary by summary, transition by transition and effect by
      effect, but for the receiver records the calls still list. */
  lemma ResultsAgree(
      dependsOn: DependsOn, before: seq<Summary>, after: seq<Summary>, result: seq<Summary>, result': seq<Summary>)
    requires OwnIds(before) && IsDependency(before, dependsOn) && IsPruned(dependsOn, before, after)
    requires Specialised(before, dependsOn, result) && Specialised(after, dependsOn, result')
    ensures |result| == |result'|
    ensures forall i :: 0 <= i < |result| ==> SameButRecords(result[i], result'[i])
  {
    PruningIsInvisible(dependsOn, before, after);
    SameOrder(dependsOn, before, after);
    SameIdList(dependsOn, before, after);
    SameIdsListed(result, result', IdList(before) + CopyOrder(before, dependsOn));
    forall i | 0 <= i < |result|
      ensures SameButRecords(result[i], result'[i])
    {
      ListedIsIdeal(before, dependsOn, result, i);
      ListedIsIdeal(after, dependsOn, result', i);
      assert SameIdeal(IndexById(before), IndexById(after), dependsOn, result[i].id);
    }
  }

  lemma SameIdList(dependsOn: DependsOn, before: seq<Summary>, after: seq<Summary>)
    requires IsPruned(dependsOn, before, after)
    ensures IdList(before) == IdList(after)
  {
  }

  lemma SameIdsListed(a: seq<Summary>, b: seq<Summary>, ids: seq<Id>)
    requires HaveIds(a, ids) && HaveIds(b, ids)
    ensures |a| == |b| && forall i :: 0 <= i < |a| ==> a[i].id == b[i].id
  {
  }

  // ---------------------------------------------------------- what is kept is used

  /** The constructions a pruned call still lists give it a copy to run on. */
  lemma KeptListIsUsed(byId: ById, dependsOn: DependsOn, call: Call) returns (c: Construction)
    requires PrunedCall(dependsOn, call).made != [] && call.summary.Some? && call.summary.value in byId
    ensures c in call.made && IsCopy(byId, dependsOn, Copy(call.summary.value, c))
    ensures CallPoints(LinkedCall(byId, dependsOn, PrunedCall(dependsOn, call), None), Copy(call.summary.value, c))
  {
    c :| c in call.made && Has(dependsOn, call.summary.value, c);
    LinkedCallPoints(byId, dependsOn, PrunedCall(dependsOn, call), None, Copy(call.summary.value, c));
  }

  /** A pruned call still on its caller's own receiver runs on a copy for some construction the caller depends on. */
  lemma KeptOwnIsUsed(summaries: seq<Summary>, dependsOn: DependsOn, caller: Id, i: nat) returns (c: Construction)
    requires IsDependency(summaries, dependsOn) && caller in IndexById(summaries)
    requires i < |EffectsOf(IndexById(summaries)[caller])| && EffectsOf(IndexById(summaries)[caller])[i].Invocation?
    requires var call := PrunedCall(dependsOn, EffectsOf(IndexById(summaries)[caller])[i].call);
             call.onOwnReceiver && call.summary.value in IndexById(summaries)
    ensures IsCopy(IndexById(summaries), dependsOn, Copy(caller, c))
    ensures var byId, call := IndexById(summaries), EffectsOf(IndexById(summaries)[caller])[i].call;
            && IsCopy(byId, dependsOn, Copy(call.summary.value, c))
            && CallPoints(LinkedCall(byId, dependsOn, PrunedCall(dependsOn, call), Some(c)),
                          Copy(call.summary.value, c))
  {
    var byId, call := IndexById(summaries), EffectsOf(IndexById(summaries)[caller])[i].call;
    c :| c in dependsOn[call.summary.value];
    InheritsFrom(summaries, dependsOn, caller, i);
    assert Has(dependsOn, call.summary.value, c);
    LinkedCallPoints(byId, dependsOn, PrunedCall(dependsOn, call), Some(c), Copy(call.summary.value, c));
  }
}
