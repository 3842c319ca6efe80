/** The result of specialising, told from the summaries and the result alone. */
module ConstructionResult {
  import opened Json
  import opened Sequences
  import opened Constructions
  import opened ConstructionCopies
  import opened ConstructionMeaning

  /** There is a summary with this id, and it does something different on the construction. */
  ghost predicate HasCopyFor(summaries: seq<Summary>, id: Id, c: Construction) {
    (exists s :: s in summaries && s.id == id) && Depends(summaries, id, c)
  }

  /** What a call to the id runs on a construction. */
  ghost function Runs(summaries: seq<Summary>, id: Id, c: Construction): Id {
    if HasCopyFor(summaries, id, c) then Copy(id, c) else id
  }

  ghost function RunsOnAll(summaries: seq<Summary>, id: Id, made: seq<Construction>): (r: seq<Id>)
    ensures |r| == |made| && forall i :: 0 <= i < |r| ==> r[i] == Runs(summaries, id, made[i])
  {
    if made == [] then [] else [Runs(summaries, id, made[0])] + RunsOnAll(summaries, id, made[1..])
  }

  /** The call says the same but for what it runs: on the caller's construction or on those it lists, one callee in the
      place of the callee, several in the place of it and of the possible ones. */
  ghost predicate IsCallOn(summaries: seq<Summary>, call: Call, on: Option<Construction>, linked: Call) {
    var made := if on.Some? && call.onOwnReceiver then [on.value] else call.made;
    && linked.callee == call.callee && linked.onOwnReceiver == call.onOwnReceiver && linked.made == call.made
    && if call.summary.None? || made == [] then linked.summary == call.summary && linked.possible == call.possible
       else
         var ids := Unique(RunsOnAll(summaries, call.summary.value, made));
         if |ids| == 1 then linked.summary == Some(ids[0]) && linked.possible == call.possible
         else linked.summary == None && linked.possible == ids
  }

  /** A call is linked, a binding is in the container listed for the construction, and anything else is as it was. */
  ghost predicate IsEffectOn(summaries: seq<Summary>, effect: Effect, on: Option<Construction>, linked: Effect) {
    match effect
    case Invocation(call) => linked.Invocation? && IsCallOn(summaries, call, on, linked.call)
    case Interaction(binding, containers) =>
      && linked.Interaction? && linked.containers == containers
      && linked.binding == if on.Some? && on.value in containers then InContainer(binding, containers[on.value])
         else binding
    case Other(_) => linked == effect
  }

  /** As many transitions, each with as many effects, each of them the summary's effect on the construction. */
  ghost predicate IsSummaryOn(summaries: seq<Summary>, s: Summary, on: Option<Construction>, linked: Summary) {
    && |linked.transitions| == |s.transitions|
    && forall t :: 0 <= t < |s.transitions| ==>
         && |linked.transitions[t].effects| == |s.transitions[t].effects|
         && forall e :: 0 <= e < |s.transitions[t].effects| ==>
              IsEffectOn(summaries, s.transitions[t].effects[e], on, linked.transitions[t].effects[e])
  }

  /** A copy of the summary for a construction it does something different on, with that construction as the receiver,
      its containers in the bindings and its calls linked. */
  ghost predicate IsCopyOf(summaries: seq<Summary>, s: Summary, copy: Summary) {
    && s in summaries && copy.id.Copy? && copy.id.of == s.id && HasCopyFor(summaries, s.id, copy.id.construction)
    && copy.receiver == Some(copy.id.construction)
    && IsSummaryOn(summaries, s, Some(copy.id.construction), copy)
  }

  lemma TargetRuns(summaries: seq<Summary>, dependsOn: DependsOn, id: Id, c: Construction)
    requires IsDependency(summaries, dependsOn)
    ensures Target(IndexById(summaries), dependsOn, id, c) == Runs(summaries, id, c)
  {
    var byId := IndexById(summaries);
    assert Has(dependsOn, id, c) <==> Depends(summaries, id, c);
    if s :| s in summaries && s.id == id { assert id in byId; }
    if id in byId { assert byId[id] in summaries && byId[id].id == id; }
  }

  lemma {:induction false} TargetsRun(summaries: seq<Summary>, dependsOn: DependsOn, id: Id, made: seq<Construction>)
    requires IsDependency(summaries, dependsOn)
    ensures Targets(IndexById(summaries), dependsOn, id, made) == RunsOnAll(summaries, id, made)
  {
    if made != [] {
      TargetRuns(summaries, dependsOn, id, made[0]);
      TargetsRun(summaries, dependsOn, id, made[1..]);
    }
  }

  lemma CallIsOn(summaries: seq<Summary>, dependsOn: DependsOn, call: Call, on: Option<Construction>)
    requires IsDependency(summaries, dependsOn)
    ensures IsCallOn(summaries, call, on, LinkedCall(IndexById(summaries), dependsOn, call, on))
  {
    if call.summary.Some? { TargetsRun(summaries, dependsOn, call.summary.value, MadeAt(call, on)); }
  }

  /** The effect on a construction, linked, is the effect on it. */
  lemma EffectIsOn(summaries: seq<Summary>, dependsOn: DependsOn, effect: Effect, on: Option<Construction>,
                   bare: Effect)
    requires IsDependency(summaries, dependsOn)
    requires bare == if on.Some? then WithContainerFor(effect, on.value) else effect
    ensures IsEffectOn(summaries, effect, on, LinkedEffect(IndexById(summaries), dependsOn, bare, on))
  {
    if effect.Invocation? { CallIsOn(summaries, dependsOn, effect.call, on); }
  }

  lemma LinkedIsOn(summaries: seq<Summary>, dependsOn: DependsOn, s: Summary)
    requires IsDependency(summaries, dependsOn)
    ensures IsSummaryOn(summaries, s, None, LinkedSummary(IndexById(summaries), dependsOn, s, None))
  {
    forall t, e | 0 <= t < |s.transitions| && 0 <= e < |s.transitions[t].effects|
      ensures IsEffectOn(summaries, s.transitions[t].effects[e], None,
                         LinkedEffect(IndexById(summaries), dependsOn, s.transitions[t].effects[e], None))
    {
      EffectIsOn(summaries, dependsOn, s.transitions[t].effects[e], None, s.transitions[t].effects[e]);
    }
  }

  lemma CopyIsOn(summaries: seq<Summary>, dependsOn: DependsOn, s: Summary, c: Construction)
    requires IsDependency(summaries, dependsOn)
    ensures IsSummaryOn(summaries, s, Some(c),
                        LinkedSummary(IndexById(summaries), dependsOn, OnConstruction(s, c), Some(c)))
    ensures LinkedSummary(IndexById(summaries), dependsOn, OnConstruction(s, c), Some(c)).receiver == Some(c)
  {
    var bare := OnConstruction(s, c);
    forall t, e | 0 <= t < |s.transitions| && 0 <= e < |s.transitions[t].effects|
      ensures |bare.transitions[t].effects| == |s.transitions[t].effects|
      ensures IsEffectOn(summaries, s.transitions[t].effects[e], Some(c),
                         LinkedEffect(IndexById(summaries), dependsOn, bare.transitions[t].effects[e], Some(c)))
    {
      EffectIsOn(summaries, dependsOn, s.transitions[t].effects[e], Some(c), bare.transitions[t].effects[e]);
    }
  }

  /** Each summary is listed in its place, its calls linked; nothing else about it changes. */
  lemma SummaryInResult(summaries: seq<Summary>, dependsOn: DependsOn, result: seq<Summary>, i: nat)
    requires IsDependency(summaries, dependsOn) && Specialised(summaries, dependsOn, result) && i < |summaries|
    ensures i < |result| && result[i].id == summaries[i].id && result[i].receiver == summaries[i].receiver
    ensures IsSummaryOn(summaries, summaries[i], None, result[i])
  {
    assert result[..|summaries|][i] == LinkedSummary(IndexById(summaries), dependsOn, summaries[i], None);
    LinkedIsOn(summaries, dependsOn, summaries[i]);
  }

  lemma LinkedCopyIsOn(summaries: seq<Summary>, byId: ById, dependsOn: DependsOn, copy: Summary) returns (s: Summary)
    requires OwnIds(summaries) && byId == IndexById(summaries) && IsDependency(summaries, dependsOn)
    requires IsLinkedCopy(byId, dependsOn, copy)
    ensures IsCopyOf(summaries, s, copy)
  {
    s := byId[copy.id.of];
    assert Has(dependsOn, s.id, copy.id.construction);
    CopyIdeal(summaries, byId, dependsOn, copy.id);
    CopyIsOn(summaries, dependsOn, s, copy.id.construction);
  }

  lemma ListedCopyIsLinked(summaries: seq<Summary>, byId: ById, dependsOn: DependsOn, result: seq<Summary>, i: nat,
                           copy: Summary)
    requires byId == IndexById(summaries) && Specialised(summaries, dependsOn, result)
    requires |summaries| <= i < |result| && copy == result[i]
    ensures IsLinkedCopy(byId, dependsOn, copy)
  {
    var made := result[|summaries|..];
    assert made[i - |summaries|] == copy;
  }

  /** After the summaries come copies and nothing else. */
  lemma CopyInResult(summaries: seq<Summary>, dependsOn: DependsOn, result: seq<Summary>, i: nat) returns (s: Summary)
    requires OwnIds(summaries) && IsDependency(summaries, dependsOn) && Specialised(summaries, dependsOn, result)
    requires |summaries| <= i < |result|
    ensures IsCopyOf(summaries, s, result[i])
  {
    var copy := result[i];
    ListedCopyIsLinked(summaries, IndexById(summaries), dependsOn, result, i, copy);
    s := LinkedCopyIsOn(summaries, IndexById(summaries), dependsOn, copy);
  }

  // ------------------------------------------------------------------ which copies there are

  /** Links between ids that are needed are links as written. */
  ghost predicate LinksAreWritten(byId: ById, dependsOn: DependsOn, result: seq<Summary>) {
    forall from, id :: Needed(byId, dependsOn, from) && LinksTo(byId, dependsOn, from, id) ==>
      PlainStep(result, from, id)
  }

  lemma LinksWritten(summaries: seq<Summary>, byId: ById, dependsOn: DependsOn, result: seq<Summary>)
    requires OwnIds(summaries) && byId == IndexById(summaries) && Specialised(summaries, dependsOn, result)
    ensures LinksAreWritten(byId, dependsOn, result)
  {
    forall from, id | Needed(byId, dependsOn, from) && LinksTo(byId, dependsOn, from, id)
      ensures PlainStep(result, from, id)
    {
      var i := NeededIsListed(summaries, dependsOn, result, from);
    }
  }

  ghost predicate ReachedFromSummary(byId: ById, result: seq<Summary>, id: Id) {
    exists root, m: nat :: root in byId && IdReached(result, root, id, m)
  }

  lemma ReachedNext(byId: ById, result: seq<Summary>, from: Id, id: Id)
    requires ReachedFromSummary(byId, result, from) && PlainStep(result, from, id)
    ensures ReachedFromSummary(byId, result, id)
  {
    var root, m: nat :| root in byId && IdReached(result, root, from, m);
    IdReachedStep(result, root, from, id, m);
  }

  lemma {:induction false} CopyIsReached(byId: ById, dependsOn: DependsOn, result: seq<Summary>, id: Id, n: nat)
    requires LinksAreWritten(byId, dependsOn, result) && NeededIn(byId, dependsOn, id, n)
    ensures ReachedFromSummary(byId, result, id)
    decreases n
  {
    if id in byId {
      assert IdReached(result, id, id, 0);
    } else {
      var k: nat := n - 1;
      var from :| NeededIn(byId, dependsOn, from, k) && LinksTo(byId, dependsOn, from, id);
      CopyIsReached(byId, dependsOn, result, from, k);
      assert Needed(byId, dependsOn, from);
      ReachedNext(byId, result, from, id);
    }
  }

  /** A copy is listed only because links of listed summaries and copies lead to it from a summary. */
  lemma CopiesAreReached(summaries: seq<Summary>, dependsOn: DependsOn, result: seq<Summary>, i: nat)
    returns (root: Summary, m: nat)
    requires OwnIds(summaries) && Specialised(summaries, dependsOn, result) && |summaries| <= i < |result|
    ensures root in summaries && IdReached(result, root.id, result[i].id, m)
  {
    var byId := IndexById(summaries);
    ListedIsIdeal(summaries, dependsOn, result, i);
    var n: nat :| NeededIn(byId, dependsOn, result[i].id, n);
    LinksWritten(summaries, byId, dependsOn, result);
    CopyIsReached(byId, dependsOn, result, result[i].id, n);
    var id, steps: nat :| id in byId && IdReached(result, id, result[i].id, steps);
    root, m := byId[id], steps;
  }
}
