/** What the copies mean: walking them plainly is walking the summaries with the current construction in hand. */
module ConstructionMeaning {
  import opened Json
  import opened Sequences
  import opened Constructions
  import opened ConstructionCopies

  /** A summary, and the construction its receiver was made at when the walk knows it. */
  datatype Spot = Spot(id: Id, on: Option<Construction>)

  // ------------------------------------------------------------------ the walks

  /** One step of the meaning: to the callee on the caller's construction for a call on the caller's own receiver, and
      otherwise on any the call lists, on none where there is none; or to a possible callee. */
  predicate CallReaches(call: Call, on: Option<Construction>, to: Spot) {
    var made := if on.Some? && call.onOwnReceiver then [on.value] else call.made;
    || (call.summary == Some(to.id) && to.on.Some? && to.on.value in made)
    || (call.summary == Some(to.id) && to.on.None? && made == [])
    || (to.id in call.possible && to.on.None?)
  }

  predicate EffectReaches(effect: Effect, on: Option<Construction>, to: Spot) {
    effect.Invocation? && CallReaches(effect.call, on, to)
  }

  predicate SpotStep(byId: ById, from: Spot, to: Spot) {
    from.id in byId &&
    exists i :: 0 <= i < |EffectsOf(byId[from.id])| && EffectReaches(EffectsOf(byId[from.id])[i], from.on, to)
  }

  ghost predicate SpotReached(byId: ById, root: Id, spot: Spot, n: nat)
    decreases n
  {
    if n == 0 then spot == Spot(root, None)
    else exists from :: SpotReached(byId, root, from, n - 1) && SpotStep(byId, from, spot)
  }

  /** The effect on a construction: a binding with a container listed for the construction is in that container. */
  function EffectOn(effect: Effect, on: Option<Construction>): Effect {
    if effect.Interaction? && on.Some? && on.value in effect.containers
    then Interaction(InContainer(effect.binding, effect.containers[on.value]), effect.containers)
    else effect
  }

  predicate SpotBinds(byId: ById, spot: Spot, b: Binding) {
    spot.id in byId &&
    exists i :: 0 <= i < |EffectsOf(byId[spot.id])| && EffectBinds(EffectOn(EffectsOf(byId[spot.id])[i], spot.on), b)
  }

  predicate EffectBinds(effect: Effect, b: Binding) {
    effect.Interaction? && effect.binding == b
  }

  /** A walk over the summaries that carries the construction it is on reaches the binding. */
  ghost predicate ContextReaches(summaries: seq<Summary>, root: Id, b: Binding) {
    exists n: nat, spot :: SpotReached(IndexById(summaries), root, spot, n) && SpotBinds(IndexById(summaries), spot, b)
  }

  predicate PlainStep(walked: seq<Summary>, from: Id, to: Id) {
    exists i :: 0 <= i < |walked| && walked[i].id == from && Points(walked[i], to)
  }

  ghost predicate IdReached(walked: seq<Summary>, root: Id, id: Id, n: nat)
    decreases n
  {
    if n == 0 then id == root
    else exists from :: IdReached(walked, root, from, n - 1) && PlainStep(walked, from, id)
  }

  predicate Binds(s: Summary, b: Binding) {
    exists i :: 0 <= i < |EffectsOf(s)| && EffectBinds(EffectsOf(s)[i], b)
  }

  predicate PlainBinds(walked: seq<Summary>, id: Id, b: Binding) {
    exists i :: 0 <= i < |walked| && walked[i].id == id && Binds(walked[i], b)
  }

  /** A walk that only follows the links as written reaches the binding. */
  ghost predicate PlainReaches(walked: seq<Summary>, root: Id, b: Binding) {
    exists n: nat, id :: IdReached(walked, root, id, n) && PlainBinds(walked, id, b)
  }

  // ------------------------------------------------------------------- one call

  /** Where a spot's summary is found among the copies. */
  function NodeOf(byId: ById, dependsOn: DependsOn, spot: Spot): Id {
    if spot.on.Some? && spot.id in byId && Has(dependsOn, spot.id, spot.on.value) then Copy(spot.id, spot.on.value)
    else spot.id
  }

  /** The construction the node at a spot was linked for. */
  function LinkedOn(byId: ById, dependsOn: DependsOn, spot: Spot): Option<Construction> {
    if spot.on.Some? && spot.id in byId && Has(dependsOn, spot.id, spot.on.value) then spot.on else None
  }

  /** When the callee runs on the caller's receiver, it depends on nothing its caller does not. */
  ghost predicate Inherits(dependsOn: DependsOn, caller: Id, call: Call) {
    call.onOwnReceiver && call.summary.Some? ==> forall c :: Has(dependsOn, call.summary.value, c) ==>
      Has(dependsOn, caller, c)
  }

  // ----------------------------------------------------- which calls are linked right

  /** The walk stands on a construction the summary does nothing different on, so it stands at no copy. */
  predicate Adrift(byId: ById, dependsOn: DependsOn, spot: Spot) {
    spot.on.Some? && LinkedOn(byId, dependsOn, spot).None?
  }

  /** Adrift, a call on the caller's own receiver is linked to the constructions it lists besides, and one has a
      copy. */
  predicate Misled(byId: ById, dependsOn: DependsOn, from: Spot, call: Call) {
    && Adrift(byId, dependsOn, from) && call.summary.Some? && call.onOwnReceiver
    && exists c :: c in call.made && Target(byId, dependsOn, call.summary.value, c) != call.summary.value
  }

  predicate SeveralTargets(byId: ById, dependsOn: DependsOn, target: Id, made: seq<Construction>) {
    |Unique(Targets(byId, dependsOn, target, made))| > 1
  }

  /** The receiver's constructions lead to several callees, which take the place of a possible callee listed besides. */
  predicate Crowded(byId: ById, dependsOn: DependsOn, on: Option<Construction>, call: Call) {
    && call.summary.Some? && SeveralTargets(byId, dependsOn, call.summary.value, MadeAt(call, on))
    && exists id :: id in call.possible && id !in Targets(byId, dependsOn, call.summary.value, MadeAt(call, on))
  }

  predicate LinkedRight(byId: ById, dependsOn: DependsOn, from: Spot, call: Call) {
    !Misled(byId, dependsOn, from, call) && !Crowded(byId, dependsOn, LinkedOn(byId, dependsOn, from), call)
  }

  ghost predicate NodeReached(byId: ById, dependsOn: DependsOn, from: Spot, call: Call, id: Id) {
    exists to :: CallReaches(call, from.on, to) && NodeOf(byId, dependsOn, to) == id
  }

  /** Where the walk stands, the linked call points at the nodes the call reaches, and at nothing else. */
  ghost predicate LinkAgrees(byId: ById, dependsOn: DependsOn, from: Spot, call: Call) {
    forall id :: CallPoints(LinkedCall(byId, dependsOn, call, LinkedOn(byId, dependsOn, from)), id) <==>
                 NodeReached(byId, dependsOn, from, call, id)
  }

  lemma ReachesLinked(byId: ById, dependsOn: DependsOn, from: Spot, call: Call, to: Spot)
    requires LinkedRight(byId, dependsOn, from, call) && Inherits(dependsOn, from.id, call) && from.id in byId
    requires CallReaches(call, from.on, to)
    ensures CallPoints(LinkedCall(byId, dependsOn, call, LinkedOn(byId, dependsOn, from)), NodeOf(byId, dependsOn, to))
  {
    var on := LinkedOn(byId, dependsOn, from);
    var made := MadeAt(call, on);
    if to.on.Some? && to.on.value in made {
      LinkedCallPoints(byId, dependsOn, call, on, NodeOf(byId, dependsOn, to));
    } else if to.on.Some? && made != [] {
      // The caller has no copy for the construction, so neither has the callee.
      assert Target(byId, dependsOn, to.id, made[0]) == to.id && made[0] in made;
      LinkedCallPoints(byId, dependsOn, call, on, to.id);
    } else {
      LinkedKeeps(byId, dependsOn, call, on, to.id);
    }
  }

  /** Linking keeps what a call without receiver constructions points at, and its possible callees. */
  lemma LinkedKeeps(byId: ById, dependsOn: DependsOn, call: Call, on: Option<Construction>, id: Id)
    requires !Crowded(byId, dependsOn, on, call) && CallPoints(call, id)
    requires id in call.possible || MadeAt(call, on) == []
    ensures CallPoints(LinkedCall(byId, dependsOn, call, on), id)
  {
    var made := MadeAt(call, on);
    if call.summary.Some? && made != [] { SomeTarget(byId, dependsOn, call.summary.value, made); }
  }

  lemma SomeTarget(byId: ById, dependsOn: DependsOn, target: Id, made: seq<Construction>)
    requires made != []
    ensures Unique(Targets(byId, dependsOn, target, made)) != []
  {
    var targets := Targets(byId, dependsOn, target, made);
    assert targets[0] in Unique(targets);
  }

  lemma LinkedReaches(byId: ById, dependsOn: DependsOn, from: Spot, call: Call, id: Id) returns (to: Spot)
    requires LinkedRight(byId, dependsOn, from, call) && Inherits(dependsOn, from.id, call) && from.id in byId
    requires CallPoints(LinkedCall(byId, dependsOn, call, LinkedOn(byId, dependsOn, from)), id)
    ensures CallReaches(call, from.on, to) && NodeOf(byId, dependsOn, to) == id
  {
    var on := LinkedOn(byId, dependsOn, from);
    LinkedCallPoints(byId, dependsOn, call, on, id);
    if IsTarget(byId, dependsOn, call, on, id) {
      var c :| c in MadeAt(call, on) && id == Target(byId, dependsOn, call.summary.value, c);
      to := Spot(call.summary.value, if c in MadeAt(call, from.on) then Some(c) else from.on);
    } else if id in call.possible {
      to := Spot(id, None);
    } else {
      assert call.summary == Some(id);
      LinkedAway(byId, dependsOn, call, on, id);
      // Nothing to copy for: the callee is itself on whatever construction the walk carries.
      to := Spot(id, if MadeAt(call, from.on) == [] then None else Some(MadeAt(call, from.on)[0]));
    }
  }

  /** A linked call points at the callee itself only when the callee is a target, or there is no construction. */
  lemma LinkedAway(byId: ById, dependsOn: DependsOn, call: Call, on: Option<Construction>, id: Id)
    requires call.summary == Some(id) && id !in call.possible
    requires CallPoints(LinkedCall(byId, dependsOn, call, on), id)
    requires !IsTarget(byId, dependsOn, call, on, id)
    ensures MadeAt(call, on) == []
  {
    TargetIsUnique(byId, dependsOn, id, MadeAt(call, on), id);
  }

  /** A call is linked as it runs where the walk stands, unless it is misled or crowded there, and then it is not. */
  lemma LinkAgreesExactly(byId: ById, dependsOn: DependsOn, from: Spot, call: Call)
    requires from.id in byId && Inherits(dependsOn, from.id, call)
    requires forall id :: CallPoints(call, id) ==> id.Original?
    ensures LinkAgrees(byId, dependsOn, from, call) <==> LinkedRight(byId, dependsOn, from, call)
  {
    if LinkedRight(byId, dependsOn, from, call) {
      forall id
        ensures CallPoints(LinkedCall(byId, dependsOn, call, LinkedOn(byId, dependsOn, from)), id) <==>
                NodeReached(byId, dependsOn, from, call, id)
      {
        RightAt(byId, dependsOn, from, call, id);
      }
    } else if Misled(byId, dependsOn, from, call) {
      MisledIsWrong(byId, dependsOn, from, call);
    } else {
      CrowdedIsWrong(byId, dependsOn, from, call);
    }
  }

  lemma RightAt(byId: ById, dependsOn: DependsOn, from: Spot, call: Call, id: Id)
    requires LinkedRight(byId, dependsOn, from, call) && Inherits(dependsOn, from.id, call) && from.id in byId
    ensures CallPoints(LinkedCall(byId, dependsOn, call, LinkedOn(byId, dependsOn, from)), id) <==>
            NodeReached(byId, dependsOn, from, call, id)
  {
    if CallPoints(LinkedCall(byId, dependsOn, call, LinkedOn(byId, dependsOn, from)), id) {
      var to := LinkedReaches(byId, dependsOn, from, call, id);
    }
    if to :| CallReaches(call, from.on, to) && NodeOf(byId, dependsOn, to) == id {
      ReachesLinked(byId, dependsOn, from, call, to);
    }
  }

  /** A misled call points at a copy that no step from the spot leads to. */
  lemma MisledIsWrong(byId: ById, dependsOn: DependsOn, from: Spot, call: Call)
    requires from.id in byId && Inherits(dependsOn, from.id, call) && Misled(byId, dependsOn, from, call)
    requires forall id :: CallPoints(call, id) ==> id.Original?
    ensures !LinkAgrees(byId, dependsOn, from, call)
  {
    var callee := call.summary.value;
    var c :| c in call.made && Target(byId, dependsOn, callee, c) != callee;
    LinkedCallPoints(byId, dependsOn, call, None, Copy(callee, c));
    assert CallPoints(LinkedCall(byId, dependsOn, call, None), Copy(callee, c));
    forall to | CallReaches(call, from.on, to)
      ensures NodeOf(byId, dependsOn, to) != Copy(callee, c)
    {
      assert CallPoints(call, to.id);
    }
    assert !NodeReached(byId, dependsOn, from, call, Copy(callee, c));
  }

  /** A crowded call no longer points at a possible callee, which a step from the spot leads to. */
  lemma CrowdedIsWrong(byId: ById, dependsOn: DependsOn, from: Spot, call: Call)
    requires from.id in byId && Crowded(byId, dependsOn, LinkedOn(byId, dependsOn, from), call)
    ensures !LinkAgrees(byId, dependsOn, from, call)
  {
    var on := LinkedOn(byId, dependsOn, from);
    var id :| id in call.possible && id !in Targets(byId, dependsOn, call.summary.value, MadeAt(call, on));
    assert CallReaches(call, from.on, Spot(id, None)) && NodeOf(byId, dependsOn, Spot(id, None)) == id;
    assert NodeReached(byId, dependsOn, from, call, id);
    assert !CallPoints(LinkedCall(byId, dependsOn, call, on), id);
  }

  /** Every call of the summary at the spot is linked right there. */
  predicate SpotLinkedRight(byId: ById, dependsOn: DependsOn, spot: Spot) {
    spot.id in byId ==>
      forall i :: 0 <= i < |EffectsOf(byId[spot.id])| && EffectsOf(byId[spot.id])[i].Invocation? ==>
        LinkedRight(byId, dependsOn, spot, EffectsOf(byId[spot.id])[i].call)
  }

  ghost predicate Reached(byId: ById, root: Id, spot: Spot) {
    exists n: nat :: SpotReached(byId, root, spot, n)
  }

  /** Wherever the walk from the root comes, the calls are linked right. */
  ghost predicate WalkLinkedRight(byId: ById, dependsOn: DependsOn, root: Id) {
    forall spot :: Reached(byId, root, spot) ==> SpotLinkedRight(byId, dependsOn, spot)
  }

  /** A call has one kind of receiver record, and one callee or several possible ones. */
  predicate OneKind(call: Call) {
    (call.onOwnReceiver ==> call.made == []) && (call.summary.Some? ==> call.possible == [])
  }

  predicate AllOneKind(summaries: seq<Summary>) {
    forall s, e :: s in summaries && e in EffectsOf(s) && e.Invocation? ==> OneKind(e.call)
  }

  /** Calls of one kind are linked right on any construction, so they are wherever a walk comes. */
  lemma OneKindIsLinkedRight(summaries: seq<Summary>, dependsOn: DependsOn, root: Id)
    requires AllOneKind(summaries)
    ensures WalkLinkedRight(IndexById(summaries), dependsOn, root)
  {
    var byId := IndexById(summaries);
    forall spot: Spot | Reached(byId, root, spot)
      ensures SpotLinkedRight(byId, dependsOn, spot)
    {
      if spot.id in byId {
        forall i | 0 <= i < |EffectsOf(byId[spot.id])| && EffectsOf(byId[spot.id])[i].Invocation?
          ensures LinkedRight(byId, dependsOn, spot, EffectsOf(byId[spot.id])[i].call)
        {
          assert byId[spot.id] in summaries && EffectsOf(byId[spot.id])[i] in EffectsOf(byId[spot.id]);
        }
      }
    }
  }

  // ------------------------------------------------------------------- one summary

  lemma InheritsFrom(summaries: seq<Summary>, dependsOn: DependsOn, caller: Id, i: nat)
    requires IsDependency(summaries, dependsOn)
    requires caller in IndexById(summaries) && i < |EffectsOf(IndexById(summaries)[caller])|
    requires EffectsOf(IndexById(summaries)[caller])[i].Invocation?
    ensures Inherits(dependsOn, caller, EffectsOf(IndexById(summaries)[caller])[i].call)
  {
    var s := IndexById(summaries)[caller];
    var call := EffectsOf(s)[i].call;
    if call.onOwnReceiver && call.summary.Some? {
      var callee := call.summary.value;
      assert CallsOwn(EffectsOf(s), callee);
      var k :| 0 <= k < |summaries| && summaries[k] == s;
      assert CallsOnSelf(summaries, caller, callee);
      forall c | Has(dependsOn, callee, c)
        ensures Has(dependsOn, caller, c)
      {
        DependsStep(summaries, caller, callee, c);
      }
    }
  }

  /** Only constructions a summary depends on give its reads a container. */
  lemma ContainersAreDepended(summaries: seq<Summary>, dependsOn: DependsOn, spot: Spot, i: nat)
    requires IsDependency(summaries, dependsOn)
    requires spot.id in IndexById(summaries) && i < |EffectsOf(IndexById(summaries)[spot.id])|
    ensures var effect := EffectsOf(IndexById(summaries)[spot.id])[i];
            EffectOn(effect, LinkedOn(IndexById(summaries), dependsOn, spot)) == EffectOn(effect, spot.on)
  {
    var s := IndexById(summaries)[spot.id];
    var effect := EffectsOf(s)[i];
    if spot.on.Some? && effect.Interaction? && spot.on.value in effect.containers {
      assert ListsContainer(EffectsOf(s), spot.on.value);
      var k :| 0 <= k < |summaries| && summaries[k] == s;
      assert Reads(summaries, spot.id, spot.on.value);
      DependsReads(summaries, spot.id, spot.on.value);
      assert Has(dependsOn, spot.id, spot.on.value);
    }
  }

  /** The linked summary at a spot's node, effect by effect. */
  lemma NodeEffects(summaries: seq<Summary>, dependsOn: DependsOn, spot: Spot)
    requires OwnIds(summaries) && spot.id in IndexById(summaries)
    ensures var byId := IndexById(summaries);
            var node := Ideal(byId, dependsOn, NodeOf(byId, dependsOn, spot));
            var on := LinkedOn(byId, dependsOn, spot);
            && node.Some?
            && |EffectsOf(node.value)| == |EffectsOf(byId[spot.id])|
            && forall i :: 0 <= i < |EffectsOf(node.value)| ==>
                 EffectsOf(node.value)[i] ==
                   LinkedEffect(byId, dependsOn, EffectOn(EffectsOf(byId[spot.id])[i], on), on)
  {
    var byId := IndexById(summaries);
    var on := LinkedOn(byId, dependsOn, spot);
    var id := NodeOf(byId, dependsOn, spot);
    if on.None? {
      LinkedEffects(byId, dependsOn, byId[spot.id], None);
    } else {
      CopyIdeal(summaries, byId, dependsOn, id);
      BareEffects(byId[spot.id], on.value);
      LinkedEffects(byId, dependsOn, Bare(byId, id), on);
    }
  }

  lemma StepIsLink(summaries: seq<Summary>, dependsOn: DependsOn, from: Spot, to: Spot)
    requires OwnIds(summaries) && IsDependency(summaries, dependsOn)
    requires SpotLinkedRight(IndexById(summaries), dependsOn, from)
    requires SpotStep(IndexById(summaries), from, to)
    ensures LinksTo(IndexById(summaries), dependsOn, NodeOf(IndexById(summaries), dependsOn, from),
                    NodeOf(IndexById(summaries), dependsOn, to))
  {
    var byId := IndexById(summaries);
    var effects := EffectsOf(byId[from.id]);
    var i :| 0 <= i < |effects| && EffectReaches(effects[i], from.on, to);
    InheritsFrom(summaries, dependsOn, from.id, i);
    ReachesLinked(byId, dependsOn, from, effects[i].call, to);
    NodePoints(summaries, dependsOn, from, i, NodeOf(byId, dependsOn, to));
  }

  lemma NodePoints(summaries: seq<Summary>, dependsOn: DependsOn, from: Spot, i: nat, id: Id)
    requires OwnIds(summaries) && from.id in IndexById(summaries) && i < |EffectsOf(IndexById(summaries)[from.id])|
    requires var byId := IndexById(summaries);
             var effect := EffectsOf(byId[from.id])[i];
             effect.Invocation? && CallPoints(LinkedCall(byId, dependsOn, effect.call, LinkedOn(byId, dependsOn, from)),
                                              id)
    ensures LinksTo(IndexById(summaries), dependsOn, NodeOf(IndexById(summaries), dependsOn, from), id)
  {
    var byId := IndexById(summaries);
    NodeEffects(summaries, dependsOn, from);
    var linked := EffectsOf(Ideal(byId, dependsOn, NodeOf(byId, dependsOn, from)).value);
    assert linked[i].Invocation? && CallPoints(linked[i].call, id);
  }

  lemma LinkIsStep(summaries: seq<Summary>, dependsOn: DependsOn, from: Spot, id: Id) returns (to: Spot)
    requires OwnIds(summaries) && IsDependency(summaries, dependsOn)
    requires from.id in IndexById(summaries) && SpotLinkedRight(IndexById(summaries), dependsOn, from)
    requires LinksTo(IndexById(summaries), dependsOn, NodeOf(IndexById(summaries), dependsOn, from), id)
    ensures SpotStep(IndexById(summaries), from, to) && NodeOf(IndexById(summaries), dependsOn, to) == id
  {
    var byId := IndexById(summaries);
    var effects := EffectsOf(byId[from.id]);
    NodeEffects(summaries, dependsOn, from);
    var linked := EffectsOf(Ideal(byId, dependsOn, NodeOf(byId, dependsOn, from)).value);
    var i :| 0 <= i < |linked| && linked[i].Invocation? && CallPoints(linked[i].call, id);
    assert linked[i] == LinkedEffect(byId, dependsOn, EffectOn(effects[i], LinkedOn(byId, dependsOn, from)),
                                     LinkedOn(byId, dependsOn, from));
    assert effects[i].Invocation?;
    InheritsFrom(summaries, dependsOn, from.id, i);
    to := LinkedReaches(byId, dependsOn, from, effects[i].call, id);
    assert EffectReaches(effects[i], from.on, to);
  }

  lemma SameBindings(summaries: seq<Summary>, dependsOn: DependsOn, spot: Spot, b: Binding)
    requires OwnIds(summaries) && IsDependency(summaries, dependsOn) && spot.id in IndexById(summaries)
    ensures Ideal(IndexById(summaries), dependsOn, NodeOf(IndexById(summaries), dependsOn, spot)).Some?
    ensures SpotBinds(IndexById(summaries), spot, b) <==>
            Binds(Ideal(IndexById(summaries), dependsOn, NodeOf(IndexById(summaries), dependsOn, spot)).value, b)
  {
    var byId := IndexById(summaries);
    NodeEffects(summaries, dependsOn, spot);
    var effects := EffectsOf(byId[spot.id]);
    var linked := EffectsOf(Ideal(byId, dependsOn, NodeOf(byId, dependsOn, spot)).value);
    forall i | 0 <= i < |effects|
      ensures EffectBinds(EffectOn(effects[i], spot.on), b) <==> EffectBinds(linked[i], b)
    {
      ContainersAreDepended(summaries, dependsOn, spot, i);
    }
  }

  // ------------------------------------------------------------------- the result

  lemma RelinkedIsIdeal(summaries: seq<Summary>, dependsOn: DependsOn, relinked: seq<Summary>, i: nat)
    requires OwnIds(summaries) && AllLinked(IndexById(summaries), dependsOn, summaries, relinked) && i < |summaries|
    ensures Ideal(IndexById(summaries), dependsOn, relinked[i].id) == Some(relinked[i])
    ensures Needed(IndexById(summaries), dependsOn, relinked[i].id)
  {
    OwnEntry(summaries, i);
    assert NeededIn(IndexById(summaries), dependsOn, relinked[i].id, 0);
  }

  lemma CopyIsIdeal(byId: ById, dependsOn: DependsOn, made: seq<Summary>, i: nat)
    requires NeededCopies(byId, dependsOn, made) && i < |made|
    ensures Ideal(byId, dependsOn, made[i].id) == Some(made[i])
    ensures Needed(byId, dependsOn, made[i].id)
  {
    assert IsLinkedCopy(byId, dependsOn, made[i]);
    assert Lists(made, made[i].id);
  }

  /** What the result lists under an id is the id's linked summary. */
  lemma ListedIsIdeal(summaries: seq<Summary>, dependsOn: DependsOn, result: seq<Summary>, i: nat)
    requires OwnIds(summaries) && Specialised(summaries, dependsOn, result) && i < |result|
    ensures Ideal(IndexById(summaries), dependsOn, result[i].id) == Some(result[i])
    ensures Needed(IndexById(summaries), dependsOn, result[i].id)
  {
    var n := |summaries|;
    if i < n {
      RelinkedIsIdeal(summaries, dependsOn, result[..n], i);
    } else {
      CopyIsIdeal(IndexById(summaries), dependsOn, result[n..], i - n);
    }
  }

  lemma NeededIsListed(summaries: seq<Summary>, dependsOn: DependsOn, result: seq<Summary>, id: Id) returns (i: nat)
    requires OwnIds(summaries) && Specialised(summaries, dependsOn, result)
    requires Needed(IndexById(summaries), dependsOn, id) && Ideal(IndexById(summaries), dependsOn, id).Some?
    ensures i < |result| && result[i].id == id && Ideal(IndexById(summaries), dependsOn, id) == Some(result[i])
  {
    var byId, n := IndexById(summaries), |summaries|;
    if id in byId {
      i := SummaryIsListed(summaries, byId, dependsOn, result[..n], id);
    } else {
      assert Lists(result[n..], id);
      i := Listing(result, n, id);
    }
    ListedIsIdeal(summaries, dependsOn, result, i);
  }

  lemma SummaryIsListed(summaries: seq<Summary>, byId: ById, dependsOn: DependsOn, relinked: seq<Summary>, id: Id)
    returns (i: nat)
    requires byId == IndexById(summaries) && AllLinked(byId, dependsOn, summaries, relinked) && id in byId
    ensures i < |relinked| && relinked[i].id == id
  {
    i :| 0 <= i < |summaries| && summaries[i] == byId[id];
    assert relinked[i] == LinkedSummary(byId, dependsOn, summaries[i], None);
  }

  lemma Listing(result: seq<Summary>, n: nat, id: Id) returns (i: nat)
    requires n <= |result| && Lists(result[n..], id)
    ensures i < |result| && result[i].id == id
  {
    var k :| 0 <= k < |result[n..]| && result[n..][k].id == id;
    i := n + k;
  }

  lemma PlainStepIsLink(summaries: seq<Summary>, dependsOn: DependsOn, result: seq<Summary>, from: Id, to: Id)
    requires OwnIds(summaries) && Specialised(summaries, dependsOn, result) && PlainStep(result, from, to)
    ensures LinksTo(IndexById(summaries), dependsOn, from, to)
    ensures Needed(IndexById(summaries), dependsOn, from) && Needed(IndexById(summaries), dependsOn, to)
  {
    var i :| 0 <= i < |result| && result[i].id == from && Points(result[i], to);
    ListedIsIdeal(summaries, dependsOn, result, i);
    NeededStep(IndexById(summaries), dependsOn, from, to);
  }

  /** Every link to a copy, from a summary or a copy, points at a copy that was made. */
  lemma LinkedCopiesExist(summaries: seq<Summary>, dependsOn: DependsOn, result: seq<Summary>, from: Id, id: Id)
    requires OwnIds(summaries) && NoCopiesYet(summaries) && Specialised(summaries, dependsOn, result)
    requires PlainStep(result, from, id) && id.Copy?
    ensures Lists(result, id)
  {
    StepToCopy(summaries, IndexById(summaries), dependsOn, result, from, id);
    NeededCopyIsListed(summaries, IndexById(summaries), dependsOn, result, id);
  }

  lemma StepToCopy(
      summaries: seq<Summary>, byId: ById, dependsOn: DependsOn, result: seq<Summary>, from: Id, id: Id)
    requires OwnIds(summaries) && NoCopiesYet(summaries) && byId == IndexById(summaries)
    requires Specialised(summaries, dependsOn, result) && PlainStep(result, from, id) && id.Copy?
    ensures IsCopy(byId, dependsOn, id) && Needed(byId, dependsOn, id)
  {
    PlainStepIsLink(summaries, dependsOn, result, from, id);
    LinkedToCopy(summaries, byId, dependsOn, from, id);
  }

  lemma NeededCopyIsListed(
      summaries: seq<Summary>, byId: ById, dependsOn: DependsOn, result: seq<Summary>, id: Id)
    requires byId == IndexById(summaries) && Specialised(summaries, dependsOn, result)
    requires IsCopy(byId, dependsOn, id) && Needed(byId, dependsOn, id)
    ensures Lists(result, id)
  {
    assert Lists(result[|summaries|..], id);
    var i := Listing(result, |summaries|, id);
  }

  lemma LinkedToCopy(summaries: seq<Summary>, byId: ById, dependsOn: DependsOn, from: Id, id: Id)
    requires NoCopiesYet(summaries) && byId == IndexById(summaries)
    requires LinksTo(byId, dependsOn, from, id) && id.Copy?
    ensures IsCopy(byId, dependsOn, id)
  {
    SourcePointsAtOriginals(summaries, byId, from);
    LinkedPointsAtCopies(byId, dependsOn, SourceOf(byId, from), RunsOn(byId, from), id);
  }

  lemma LinkedPointsAtCopies(byId: ById, dependsOn: DependsOn, s: Summary, on: Option<Construction>, id: Id)
    requires PointsAtOriginals(s) && Points(LinkedSummary(byId, dependsOn, s, on), id) && id.Copy?
    ensures IsCopy(byId, dependsOn, id)
  {
    LinkedEffects(byId, dependsOn, s, on);
    var own, linked := EffectsOf(s), EffectsOf(LinkedSummary(byId, dependsOn, s, on));
    var i :| 0 <= i < |linked| && linked[i].Invocation? && CallPoints(linked[i].call, id);
    assert linked[i] == LinkedEffect(byId, dependsOn, own[i], on);
    LinkedCallPoints(byId, dependsOn, own[i].call, on, id);
    if CallPoints(own[i].call, id) {
      assert Points(s, id);
    } else {
      assert Points(s, own[i].call.summary.value);
    }
  }

  // -------------------------------------------------------------------- the theorem

  lemma StepIsWalked(summaries: seq<Summary>, dependsOn: DependsOn, result: seq<Summary>, from: Spot, to: Spot)
    requires OwnIds(summaries) && IsDependency(summaries, dependsOn) && Specialised(summaries, dependsOn, result)
    requires SpotLinkedRight(IndexById(summaries), dependsOn, from)
    requires SpotStep(IndexById(summaries), from, to)
    requires Needed(IndexById(summaries), dependsOn, NodeOf(IndexById(summaries), dependsOn, from))
    ensures PlainStep(result, NodeOf(IndexById(summaries), dependsOn, from),
                      NodeOf(IndexById(summaries), dependsOn, to))
    ensures Needed(IndexById(summaries), dependsOn, NodeOf(IndexById(summaries), dependsOn, to))
  {
    var byId := IndexById(summaries);
    var a, b := NodeOf(byId, dependsOn, from), NodeOf(byId, dependsOn, to);
    StepIsLink(summaries, dependsOn, from, to);
    NeededStep(byId, dependsOn, a, b);
    var i := NeededIsListed(summaries, dependsOn, result, a);
  }

  /** A walk that takes a step started at a summary there is. */
  lemma {:induction false} RootIsKnown(byId: ById, root: Id, spot: Spot, n: nat)
    requires SpotReached(byId, root, spot, n) && spot.id in byId
    ensures root in byId
    decreases n
  {
    if n > 0 {
      var from :| SpotReached(byId, root, from, n - 1) && SpotStep(byId, from, spot);
      RootIsKnown(byId, root, from, n - 1);
    }
  }

  lemma WalkedIsStep(summaries: seq<Summary>, dependsOn: DependsOn, result: seq<Summary>, from: Spot, id: Id)
    returns (to: Spot)
    requires OwnIds(summaries) && NoCopiesYet(summaries) && IsDependency(summaries, dependsOn)
    requires Specialised(summaries, dependsOn, result) && from.id.Original?
    requires SpotLinkedRight(IndexById(summaries), dependsOn, from)
    requires PlainStep(result, NodeOf(IndexById(summaries), dependsOn, from), id)
    ensures SpotStep(IndexById(summaries), from, to) && NodeOf(IndexById(summaries), dependsOn, to) == id
    ensures to.id.Original?
  {
    PlainStepIsLink(summaries, dependsOn, result, NodeOf(IndexById(summaries), dependsOn, from), id);
    to := LinkIsStep(summaries, dependsOn, from, id);
    StepToOriginal(summaries, from, to);
  }

  lemma StepToOriginal(summaries: seq<Summary>, from: Spot, to: Spot)
    requires NoCopiesYet(summaries) && SpotStep(IndexById(summaries), from, to)
    ensures to.id.Original?
  {
    var s := IndexById(summaries)[from.id];
    var i :| 0 <= i < |EffectsOf(s)| && EffectReaches(EffectsOf(s)[i], from.on, to);
    assert CallPoints(EffectsOf(s)[i].call, to.id);
    assert s in summaries && Points(s, to.id);
  }

  /** Each step of the walk that carries constructions is a link between the nodes of its spots. */
  ghost predicate StepsAreWalked(byId: ById, dependsOn: DependsOn, result: seq<Summary>, root: Id) {
    forall from, to ::
      Reached(byId, root, from) && SpotStep(byId, from, to) &&
        Needed(byId, dependsOn, NodeOf(byId, dependsOn, from)) ==>
        && PlainStep(result, NodeOf(byId, dependsOn, from), NodeOf(byId, dependsOn, to))
        && Needed(byId, dependsOn, NodeOf(byId, dependsOn, to))
  }

  /** Each link from the node of a spot the walk reaches is a step of the walk. */
  ghost predicate WalkedAreSteps(byId: ById, dependsOn: DependsOn, result: seq<Summary>, root: Id) {
    forall from: Spot, id ::
      Reached(byId, root, from) && from.id.Original? && PlainStep(result, NodeOf(byId, dependsOn, from), id) ==>
        exists to: Spot :: to.id.Original? && SpotStep(byId, from, to) && NodeOf(byId, dependsOn, to) == id
  }

  lemma {:induction false} SpotsAreWalked(
      byId: ById, dependsOn: DependsOn, result: seq<Summary>, root: Id, spot: Spot, n: nat)
    requires StepsAreWalked(byId, dependsOn, result, root) && root in byId
    requires SpotReached(byId, root, spot, n)
    ensures IdReached(result, root, NodeOf(byId, dependsOn, spot), n)
    ensures Needed(byId, dependsOn, NodeOf(byId, dependsOn, spot))
    decreases n
  {
    if n == 0 {
      assert NeededIn(byId, dependsOn, root, 0);
    } else {
      var m: nat := n - 1;
      var from :| SpotReached(byId, root, from, m) && SpotStep(byId, from, spot);
      SpotsAreWalked(byId, dependsOn, result, root, from, m);
      assert Reached(byId, root, from);
      IdReachedStep(result, root, NodeOf(byId, dependsOn, from), NodeOf(byId, dependsOn, spot), m);
    }
  }

  lemma IdReachedStep(result: seq<Summary>, root: Id, from: Id, id: Id, m: nat)
    requires IdReached(result, root, from, m) && PlainStep(result, from, id)
    ensures IdReached(result, root, id, m + 1)
  {
  }

  lemma {:induction false} WalkedAreSpots(byId: ById, dependsOn: DependsOn, result: seq<Summary>, root: Id, id: Id,
                                          n: nat)
    returns (spot: Spot)
    requires WalkedAreSteps(byId, dependsOn, result, root) && root.Original?
    requires IdReached(result, root, id, n)
    ensures SpotReached(byId, root, spot, n) && NodeOf(byId, dependsOn, spot) == id && spot.id.Original?
    decreases n
  {
    if n == 0 {
      spot := Spot(root, None);
    } else {
      var from :| IdReached(result, root, from, n - 1) && PlainStep(result, from, id);
      var before := WalkedAreSpots(byId, dependsOn, result, root, from, n - 1);
      assert Reached(byId, root, before);
      spot :| spot.id.Original? && SpotStep(byId, before, spot) && NodeOf(byId, dependsOn, spot) == id;
    }
  }

  lemma LinksSimulate(summaries: seq<Summary>, dependsOn: DependsOn, result: seq<Summary>, root: Id)
    requires OwnIds(summaries) && NoCopiesYet(summaries) && WalkLinkedRight(IndexById(summaries), dependsOn, root)
    requires IsDependency(summaries, dependsOn) && Specialised(summaries, dependsOn, result)
    ensures StepsAreWalked(IndexById(summaries), dependsOn, result, root)
    ensures WalkedAreSteps(IndexById(summaries), dependsOn, result, root)
  {
    var byId := IndexById(summaries);
    forall from, to | Reached(byId, root, from) && SpotStep(byId, from, to) &&
      Needed(byId, dependsOn, NodeOf(byId, dependsOn, from))
      ensures PlainStep(result, NodeOf(byId, dependsOn, from), NodeOf(byId, dependsOn, to))
      ensures Needed(byId, dependsOn, NodeOf(byId, dependsOn, to))
    {
      StepIsWalked(summaries, dependsOn, result, from, to);
    }
    forall from: Spot, id | Reached(byId, root, from) && from.id.Original? &&
      PlainStep(result, NodeOf(byId, dependsOn, from), id)
      ensures exists to: Spot :: to.id.Original? && SpotStep(byId, from, to) && NodeOf(byId, dependsOn, to) == id
    {
      var to := WalkedIsStep(summaries, dependsOn, result, from, id);
    }
  }

  /** Where no call the walk comes to is misled or crowded, specialising preserves meaning: both walks, however long,
      reach the same bindings. */
  lemma CopiesPreserveMeaning(summaries: seq<Summary>, dependsOn: DependsOn, result: seq<Summary>, root: Id, b: Binding)
    requires OwnIds(summaries) && NoCopiesYet(summaries) && root.Original?
    requires IsDependency(summaries, dependsOn) && Specialised(summaries, dependsOn, result)
    requires WalkLinkedRight(IndexById(summaries), dependsOn, root)
    ensures ContextReaches(summaries, root, b) <==> PlainReaches(result, root, b)
  {
    var byId := IndexById(summaries);
    LinksSimulate(summaries, dependsOn, result, root);
    if ContextReaches(summaries, root, b) {
      var n: nat, spot :| SpotReached(byId, root, spot, n) && SpotBinds(byId, spot, b);
      RootIsKnown(byId, root, spot, n);
      SpotsAreWalked(byId, dependsOn, result, root, spot, n);
      BindingIsWalked(summaries, dependsOn, result, spot, b);
    }
    if PlainReaches(result, root, b) {
      var n: nat, id :| IdReached(result, root, id, n) && PlainBinds(result, id, b);
      var spot := WalkedAreSpots(byId, dependsOn, result, root, id, n);
      WalkedBinding(summaries, dependsOn, result, spot, b);
    }
  }

  /** Summaries whose calls are all of one kind keep their meaning from every root. */
  lemma OneKindPreservesMeaning(summaries: seq<Summary>, dependsOn: DependsOn, result: seq<Summary>, root: Id,
                                b: Binding)
    requires OwnIds(summaries) && NoCopiesYet(summaries) && root.Original? && AllOneKind(summaries)
    requires IsDependency(summaries, dependsOn) && Specialised(summaries, dependsOn, result)
    ensures ContextReaches(summaries, root, b) <==> PlainReaches(result, root, b)
  {
    OneKindIsLinkedRight(summaries, dependsOn, root);
    CopiesPreserveMeaning(summaries, dependsOn, result, root, b);
  }

  lemma BindingIsWalked(summaries: seq<Summary>, dependsOn: DependsOn, result: seq<Summary>, spot: Spot, b: Binding)
    requires OwnIds(summaries) && IsDependency(summaries, dependsOn) && Specialised(summaries, dependsOn, result)
    requires SpotBinds(IndexById(summaries), spot, b)
    requires Needed(IndexById(summaries), dependsOn, NodeOf(IndexById(summaries), dependsOn, spot))
    ensures PlainBinds(result, NodeOf(IndexById(summaries), dependsOn, spot), b)
  {
    SameBindings(summaries, dependsOn, spot, b);
    var i := NeededIsListed(summaries, dependsOn, result, NodeOf(IndexById(summaries), dependsOn, spot));
  }

  lemma WalkedBinding(summaries: seq<Summary>, dependsOn: DependsOn, result: seq<Summary>, spot: Spot, b: Binding)
    requires OwnIds(summaries) && IsDependency(summaries, dependsOn) && Specialised(summaries, dependsOn, result)
    requires spot.id.Original?
    requires PlainBinds(result, NodeOf(IndexById(summaries), dependsOn, spot), b)
    ensures SpotBinds(IndexById(summaries), spot, b)
  {
    var id := NodeOf(IndexById(summaries), dependsOn, spot);
    var i :| 0 <= i < |result| && result[i].id == id && Binds(result[i], b);
    ListedIsIdeal(summaries, dependsOn, result, i);
    SameBindings(summaries, dependsOn, spot, b);
  }
}
