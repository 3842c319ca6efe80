/** Summaries on which the copies mean something else: one call is misled, or one is crowded. */
module ConstructionLimits {
  import opened Json
  import opened Sequences
  import opened Constructions
  import opened ConstructionCopies
  import opened ConstructionMeaning

  function One(name: string, effect: Effect): (s: Summary)
    ensures EffectsOf(s) == [effect]
  {
    var s := Summary(Original(name), None, [Transition([effect])]);
    assert FlatEffects(s.transitions[1..]) == [];
    s
  }

  const ROUTE := One("route", Invocation(Call("a.run", Some(Original("run")), [], false, ["x.ts:1:1"])))
  const RUN := One("run", Invocation(Call("this.query", Some(Original("query")), [], true, ["y.ts:1:1"])))
  const QUERY := One("query", Interaction(Boundary("db"), map["y.ts:1:1" := "users"]))

  const MIXED := [ROUTE, RUN, QUERY]

  lemma MixedById()
    ensures OwnIds(MIXED) && IsMixed(IndexById(MIXED))
  {
    OwnEntry(MIXED, 0);
    OwnEntry(MIXED, 1);
    OwnEntry(MIXED, 2);
  }

  lemma {:induction false} MixedIgnoresX(id: Id, n: nat)
    ensures !ChainReads(MIXED, id, "x.ts:1:1", n)
    decreases n
  {
    forall i | 0 <= i < |MIXED|
      ensures !ListsContainer(EffectsOf(MIXED[i]), "x.ts:1:1")
    {
    }
    if n > 0 {
      var m: nat := n - 1;
      forall callee
        ensures !ChainReads(MIXED, callee, "x.ts:1:1", m)
      {
        MixedIgnoresX(callee, m);
      }
    }
  }

  /** What the walk with constructions reaches in the mixed summaries. */
  predicate OnX(spot: Spot) {
    spot == Spot(ROUTE.id, None) || (spot.id in {RUN.id, QUERY.id} && spot.on == Some("x.ts:1:1"))
  }

  ghost predicate IsMixed(byId: ById) {
    && ROUTE.id in byId && byId[ROUTE.id] == ROUTE
    && RUN.id in byId && byId[RUN.id] == RUN
    && QUERY.id in byId && byId[QUERY.id] == QUERY
  }

  lemma MixedStepOnX(byId: ById, from: Spot, to: Spot)
    requires IsMixed(byId) && OnX(from) && SpotStep(byId, from, to)
    ensures OnX(to)
  {
    var effects := EffectsOf(byId[from.id]);
    assert |effects| == 1;
    assert EffectReaches(effects[0], from.on, to);
  }

  lemma {:induction false} MixedStaysOnX(byId: ById, spot: Spot, n: nat)
    requires IsMixed(byId) && SpotReached(byId, ROUTE.id, spot, n)
    ensures OnX(spot)
    decreases n
  {
    if n > 0 {
      var from :| SpotReached(byId, ROUTE.id, from, n - 1) && SpotStep(byId, from, spot);
      MixedStaysOnX(byId, from, n - 1);
      MixedStepOnX(byId, from, spot);
    }
  }

  lemma MixedOnX(byId: ById, spot: Spot)
    requires IsMixed(byId) && OnX(spot)
    ensures !SpotBinds(byId, spot, InContainer(Boundary("db"), "users"))
  {
    var effects := EffectsOf(byId[spot.id]);
    assert |effects| == 1;
    assert !EffectBinds(EffectOn(effects[0], spot.on), InContainer(Boundary("db"), "users"));
  }

  lemma MixedStep(dependsOn: DependsOn, from: Summary, call: Call, c: Construction, to: Id)
    requires from in MIXED && EffectsOf(from) == [Invocation(call)] && call.summary.Some? && c in call.made
    requires to == Target(IndexById(MIXED), dependsOn, call.summary.value, c)
    ensures LinksTo(IndexById(MIXED), dependsOn, from.id, to)
  {
    var byId := IndexById(MIXED);
    MixedById();
    LinkedEffects(byId, dependsOn, from, None);
    LinkedCallPoints(byId, dependsOn, call, None, to);
    assert EffectsOf(LinkedSummary(byId, dependsOn, from, None))[0].Invocation?;
  }

  lemma LinkIsPlainStep(summaries: seq<Summary>, dependsOn: DependsOn, result: seq<Summary>, from: Id, to: Id)
    requires OwnIds(summaries) && Specialised(summaries, dependsOn, result)
    requires Needed(IndexById(summaries), dependsOn, from) && LinksTo(IndexById(summaries), dependsOn, from, to)
    ensures PlainStep(result, from, to) && Needed(IndexById(summaries), dependsOn, to)
  {
    var i := NeededIsListed(summaries, dependsOn, result, from);
    NeededStep(IndexById(summaries), dependsOn, from, to);
  }

  lemma MixedHas(dependsOn: DependsOn)
    requires IsDependency(MIXED, dependsOn)
    ensures !Has(dependsOn, RUN.id, "x.ts:1:1") && Has(dependsOn, QUERY.id, "y.ts:1:1")
  {
    forall n: nat
      ensures !ChainReads(MIXED, RUN.id, "x.ts:1:1", n)
    {
      MixedIgnoresX(RUN.id, n);
    }
    assert MIXED[2] == QUERY && EffectsOf(QUERY)[0].Interaction?;
    DependsReads(MIXED, QUERY.id, "y.ts:1:1");
  }

  lemma MixedCopyIsWalked(dependsOn: DependsOn, result: seq<Summary>)
    requires IsDependency(MIXED, dependsOn) && Specialised(MIXED, dependsOn, result)
    ensures IdReached(result, ROUTE.id, Copy(QUERY.id, "y.ts:1:1"), 2)
    ensures Needed(IndexById(MIXED), dependsOn, Copy(QUERY.id, "y.ts:1:1"))
  {
    var byId, copy := IndexById(MIXED), Copy(QUERY.id, "y.ts:1:1");
    MixedById();
    MixedHas(dependsOn);
    MixedStep(dependsOn, ROUTE, Call("a.run", Some(Original("run")), [], false, ["x.ts:1:1"]), "x.ts:1:1", RUN.id);
    MixedStep(dependsOn, RUN, Call("this.query", Some(Original("query")), [], true, ["y.ts:1:1"]), "y.ts:1:1", copy);
    assert NeededIn(byId, dependsOn, ROUTE.id, 0);
    LinkIsPlainStep(MIXED, dependsOn, result, ROUTE.id, RUN.id);
    LinkIsPlainStep(MIXED, dependsOn, result, RUN.id, copy);
    assert IdReached(result, ROUTE.id, ROUTE.id, 0);
    assert IdReached(result, ROUTE.id, RUN.id, 1);
  }

  lemma QueryBindsUsers(byId: ById)
    requires IsMixed(byId)
    ensures SpotBinds(byId, Spot(QUERY.id, Some("y.ts:1:1")), InContainer(Boundary("db"), "users"))
  {
    assert EffectBinds(EffectOn(EffectsOf(QUERY)[0], Some("y.ts:1:1")), InContainer(Boundary("db"), "users"));
  }

  lemma UsersAreNotReached()
    ensures !ContextReaches(MIXED, ROUTE.id, InContainer(Boundary("db"), "users"))
  {
    var byId := IndexById(MIXED);
    MixedById();
    forall n: nat, spot | SpotReached(byId, ROUTE.id, spot, n)
      ensures !SpotBinds(byId, spot, InContainer(Boundary("db"), "users"))
    {
      MixedStaysOnX(byId, spot, n);
      MixedOnX(byId, spot);
    }
  }

  /** A call on the caller's own receiver that also lists where its receiver was made breaks the copies' meaning. */
  lemma BothKindsDisagree(dependsOn: DependsOn, result: seq<Summary>)
    requires IsDependency(MIXED, dependsOn) && Specialised(MIXED, dependsOn, result)
    ensures PlainReaches(result, ROUTE.id, InContainer(Boundary("db"), "users"))
    ensures !ContextReaches(MIXED, ROUTE.id, InContainer(Boundary("db"), "users"))
  {
    var b, spot := InContainer(Boundary("db"), "users"), Spot(QUERY.id, Some("y.ts:1:1"));
    MixedById();
    MixedHas(dependsOn);
    MixedCopyIsWalked(dependsOn, result);
    QueryBindsUsers(IndexById(MIXED));
    BindingIsWalked(MIXED, dependsOn, result, spot, b);
    UsersAreNotReached();
  }

  // ---------------------------------------------------------------- a crowded call

  const PICK := Call("pick.run", Some(Original("read")), [Original("other")], false, ["y.ts:1:1", "z.ts:1:1"])
  const CHOICE := One("choice", Invocation(PICK))
  const READ := One("read", Interaction(Boundary("db"), map["y.ts:1:1" := "users", "z.ts:1:1" := "orders"]))
  const OTHER := One("other", Interaction(Boundary("queue"), map[]))

  const CROWDED := [CHOICE, READ, OTHER]

  ghost predicate IsCrowded(byId: ById) {
    && CHOICE.id in byId && byId[CHOICE.id] == CHOICE
    && READ.id in byId && byId[READ.id] == READ
    && OTHER.id in byId && byId[OTHER.id] == OTHER
  }

  lemma CrowdedById()
    ensures OwnIds(CROWDED) && IsCrowded(IndexById(CROWDED))
  {
    OwnEntry(CROWDED, 0);
    OwnEntry(CROWDED, 1);
    OwnEntry(CROWDED, 2);
  }

  lemma CrowdedHas(dependsOn: DependsOn)
    requires IsDependency(CROWDED, dependsOn)
    ensures Has(dependsOn, READ.id, "y.ts:1:1") && Has(dependsOn, READ.id, "z.ts:1:1")
  {
    assert CROWDED[1] == READ && EffectsOf(READ)[0].Interaction?;
    DependsReads(CROWDED, READ.id, "y.ts:1:1");
    DependsReads(CROWDED, READ.id, "z.ts:1:1");
  }

  predicate IsReadCopy(id: Id) {
    id == Copy(READ.id, "y.ts:1:1") || id == Copy(READ.id, "z.ts:1:1")
  }

  lemma TwoMembers<T>(s: seq<T>, a: T, b: T)
    requires a in s && b in s && a != b
    ensures |s| > 1
  {
    var i :| 0 <= i < |s| && s[i] == a;
    var j :| 0 <= j < |s| && s[j] == b;
    assert i != j;
  }

  /** The linked call points at the two copies only. */
  lemma PickIsLinked(byId: ById, dependsOn: DependsOn, id: Id)
    requires READ.id in byId && Has(dependsOn, READ.id, "y.ts:1:1") && Has(dependsOn, READ.id, "z.ts:1:1")
    requires CallPoints(LinkedCall(byId, dependsOn, PICK, None), id)
    ensures IsReadCopy(id)
  {
    var ids := Unique(Targets(byId, dependsOn, READ.id, PICK.made));
    assert PICK.made[0] == "y.ts:1:1" && PICK.made[1] == "z.ts:1:1";
    TargetIsUnique(byId, dependsOn, READ.id, PICK.made, Copy(READ.id, "y.ts:1:1"));
    TargetIsUnique(byId, dependsOn, READ.id, PICK.made, Copy(READ.id, "z.ts:1:1"));
    TwoMembers(ids, Copy(READ.id, "y.ts:1:1"), Copy(READ.id, "z.ts:1:1"));
    TargetIsUnique(byId, dependsOn, READ.id, PICK.made, id);
  }

  /** What the linked summary under an id points at and binds: the copies of the reading summary, and no queue. */
  ghost predicate ReadsOnly(byId: ById, dependsOn: DependsOn, from: Id) {
    && (forall id :: LinksTo(byId, dependsOn, from, id) ==> IsReadCopy(id))
    && (Ideal(byId, dependsOn, from).Some? ==> !Binds(Ideal(byId, dependsOn, from).value, Boundary("queue")))
  }

  lemma ChoiceReadsOnly(summaries: seq<Summary>, byId: ById, dependsOn: DependsOn)
    requires OwnIds(summaries) && byId == IndexById(summaries) && IsCrowded(byId)
    requires Has(dependsOn, READ.id, "y.ts:1:1") && Has(dependsOn, READ.id, "z.ts:1:1")
    ensures ReadsOnly(byId, dependsOn, CHOICE.id)
  {
    LinkedEffects(byId, dependsOn, CHOICE, None);
    var linked := EffectsOf(LinkedSummary(byId, dependsOn, CHOICE, None));
    assert |linked| == 1 && linked[0] == Invocation(LinkedCall(byId, dependsOn, PICK, None));
    forall id | LinksTo(byId, dependsOn, CHOICE.id, id)
      ensures IsReadCopy(id)
    {
      PickIsLinked(byId, dependsOn, id);
    }
  }

  /** A copy of the reading summary calls nothing, and its one binding is in a container. */
  lemma CopyReadsOnly(summaries: seq<Summary>, byId: ById, dependsOn: DependsOn, copy: Id)
    requires OwnIds(summaries) && byId == IndexById(summaries) && IsCrowded(byId)
    requires Has(dependsOn, READ.id, "y.ts:1:1") && Has(dependsOn, READ.id, "z.ts:1:1") && IsReadCopy(copy)
    ensures ReadsOnly(byId, dependsOn, copy)
  {
    var spot := Spot(READ.id, Some(copy.construction));
    assert NodeOf(byId, dependsOn, spot) == copy;
    NodeEffects(summaries, dependsOn, spot);
    OneInContainer(Ideal(byId, dependsOn, copy).value);
  }

  lemma OneInContainer(s: Summary)
    requires |EffectsOf(s)| == 1 && EffectsOf(s)[0].Interaction? && EffectsOf(s)[0].binding.InContainer?
    ensures (forall id :: !Points(s, id)) && !Binds(s, Boundary("queue"))
  {
  }

  /** Both kinds of summary the plain walk comes to read only. */
  lemma CrowdedReadsOnly(dependsOn: DependsOn, id: Id)
    requires IsDependency(CROWDED, dependsOn) && (id == CHOICE.id || IsReadCopy(id))
    ensures ReadsOnly(IndexById(CROWDED), dependsOn, id)
  {
    CrowdedById();
    CrowdedHas(dependsOn);
    if id == CHOICE.id {
      ChoiceReadsOnly(CROWDED, IndexById(CROWDED), dependsOn);
    } else {
      CopyReadsOnly(CROWDED, IndexById(CROWDED), dependsOn, id);
    }
  }

  /** No link of the result leads out of these ids. */
  ghost predicate Closed(result: seq<Summary>, ids: Id -> bool) {
    forall from, to :: ids(from) && PlainStep(result, from, to) ==> ids(to)
  }

  lemma {:induction false} WalkStaysIn(result: seq<Summary>, ids: Id -> bool, root: Id, id: Id, n: nat)
    requires Closed(result, ids) && ids(root) && IdReached(result, root, id, n)
    ensures ids(id)
    decreases n
  {
    if n > 0 {
      var m: nat := n - 1;
      var from :| IdReached(result, root, from, m) && PlainStep(result, from, id);
      WalkStaysIn(result, ids, root, from, m);
    }
  }

  lemma CrowdedIsClosed(dependsOn: DependsOn, result: seq<Summary>, ids: Id -> bool)
    requires IsDependency(CROWDED, dependsOn) && Specialised(CROWDED, dependsOn, result)
    requires forall id :: ids(id) <==> id == CHOICE.id || IsReadCopy(id)
    ensures Closed(result, ids)
  {
    forall from, to | ids(from) && PlainStep(result, from, to)
      ensures ids(to)
    {
      CrowdedById();
      CrowdedReadsOnly(dependsOn, from);
      PlainStepIsLink(CROWDED, dependsOn, result, from, to);
    }
  }

  lemma NotReached(result: seq<Summary>, ids: Id -> bool, root: Id, b: Binding)
    requires Closed(result, ids) && ids(root)
    requires forall id :: ids(id) ==> !PlainBinds(result, id, b)
    ensures !PlainReaches(result, root, b)
  {
    forall n: nat, id | IdReached(result, root, id, n)
      ensures !PlainBinds(result, id, b)
    {
      WalkStaysIn(result, ids, root, id, n);
    }
  }

  lemma NoQueueThere(dependsOn: DependsOn, result: seq<Summary>, id: Id)
    requires IsDependency(CROWDED, dependsOn) && Specialised(CROWDED, dependsOn, result)
    requires id == CHOICE.id || IsReadCopy(id)
    ensures !PlainBinds(result, id, Boundary("queue"))
  {
    CrowdedById();
    CrowdedReadsOnly(dependsOn, id);
    forall i | 0 <= i < |result| && result[i].id == id
      ensures !Binds(result[i], Boundary("queue"))
    {
      ListedIsIdeal(CROWDED, dependsOn, result, i);
    }
  }

  lemma OtherIsReached()
    ensures ContextReaches(CROWDED, CHOICE.id, Boundary("queue"))
  {
    var byId, spot := IndexById(CROWDED), Spot(OTHER.id, None);
    CrowdedById();
    assert PICK.possible[0] == OTHER.id;
    assert EffectReaches(EffectsOf(CHOICE)[0], None, spot);
    assert SpotStep(byId, Spot(CHOICE.id, None), spot);
    assert SpotReached(byId, CHOICE.id, Spot(CHOICE.id, None), 0);
    assert SpotReached(byId, CHOICE.id, spot, 1);
    assert EffectBinds(EffectOn(EffectsOf(OTHER)[0], None), Boundary("queue"));
    assert SpotBinds(byId, spot, Boundary("queue"));
  }

  lemma QueueIsNotReached(dependsOn: DependsOn, result: seq<Summary>, ids: Id -> bool)
    requires IsDependency(CROWDED, dependsOn) && Specialised(CROWDED, dependsOn, result)
    requires forall id :: ids(id) <==> id == CHOICE.id || IsReadCopy(id)
    ensures !PlainReaches(result, CHOICE.id, Boundary("queue"))
  {
    CrowdedIsClosed(dependsOn, result, ids);
    forall id | ids(id)
      ensures !PlainBinds(result, id, Boundary("queue"))
    {
      NoQueueThere(dependsOn, result, id);
    }
    NotReached(result, ids, CHOICE.id, Boundary("queue"));
  }

  /** A call whose receivers lead to several callees loses the possible callee it lists besides, and what that binds. */
  lemma PossibleIsForgotten(dependsOn: DependsOn, result: seq<Summary>)
    requires IsDependency(CROWDED, dependsOn) && Specialised(CROWDED, dependsOn, result)
    ensures ContextReaches(CROWDED, CHOICE.id, Boundary("queue"))
    ensures !PlainReaches(result, CHOICE.id, Boundary("queue"))
  {
    OtherIsReached();
    QueueIsNotReached(dependsOn, result, id => id == CHOICE.id || IsReadCopy(id));
  }
}
