/** The worklist that copies and links, proved to make the copies that chains of links need and no others. */
module ConstructionCopies {
  import opened Json
  import opened Sequences
  import opened Constructions

  type ById = map<Id, Summary>

  function IndexById(summaries: seq<Summary>): (byId: ById)
    ensures forall id :: id in byId ==> byId[id] in summaries && byId[id].id == id
    ensures forall s :: s in summaries ==> s.id in byId
  {
    if summaries == [] then map[] else
      var front := summaries[..|summaries| - 1];
      assert summaries == front + [summaries[|summaries| - 1]];
      IndexById(front)[summaries[|summaries| - 1].id := summaries[|summaries| - 1]]
  }

  // ------------------------------------------------------------- each effect

  function MapEffects(f: Effect -> Effect, effects: seq<Effect>): (r: seq<Effect>)
    ensures |r| == |effects| && forall i :: 0 <= i < |r| ==> r[i] == f(effects[i])
  {
    if effects == [] then [] else [f(effects[0])] + MapEffects(f, effects[1..])
  }

  function MapTransitions(f: Effect -> Effect, transitions: seq<Transition>): (r: seq<Transition>)
    ensures |r| == |transitions| && forall i :: 0 <= i < |r| ==>
            r[i] == Transition(MapEffects(f, transitions[i].effects))
  {
    if transitions == [] then [] else
      [Transition(MapEffects(f, transitions[0].effects))] + MapTransitions(f, transitions[1..])
  }

  function MapSummary(f: Effect -> Effect, s: Summary): Summary {
    s.(transitions := MapTransitions(f, s.transitions))
  }

  lemma {:induction false} FlatMapped(f: Effect -> Effect, transitions: seq<Transition>)
    ensures FlatEffects(MapTransitions(f, transitions)) == MapEffects(f, FlatEffects(transitions))
  {
    if transitions != [] {
      FlatMapped(f, transitions[1..]);
      MapJoin(f, transitions[0].effects, FlatEffects(transitions[1..]));
      var mapped := MapTransitions(f, transitions);
      assert mapped[0] == Transition(MapEffects(f, transitions[0].effects));
      assert mapped[1..] == MapTransitions(f, transitions[1..]);
    }
  }

  lemma MapJoin(f: Effect -> Effect, a: seq<Effect>, b: seq<Effect>)
    ensures MapEffects(f, a + b) == MapEffects(f, a) + MapEffects(f, b)
  {
  }

  lemma EffectsMapped(f: Effect -> Effect, s: Summary)
    ensures EffectsOf(MapSummary(f, s)) == MapEffects(f, EffectsOf(s))
  {
    FlatMapped(f, s.transitions);
  }

  function WithContainerFor(effect: Effect, c: Construction): Effect {
    if effect.Interaction? && c in effect.containers
      then effect.(binding := InContainer(effect.binding, effect.containers[c]))
    else effect
  }

  /** The copy before its calls are linked: a new id, a receiver, and the construction's containers in its bindings. */
  function OnConstruction(s: Summary, c: Construction): Summary {
    MapSummary(e => WithContainerFor(e, c), s).(id := Copy(s.id, c), receiver := Some(c))
  }

  /** A caller's construction overrides the list of a call on its own receiver; without either the answer is empty. */
  function MadeAt(call: Call, on: Option<Construction>): seq<Construction> {
    if on.Some? && call.onOwnReceiver then [on.value] else call.made
  }

  /** What a call reaches when its receiver was made at `c`: a copy, or the callee itself. */
  function Target(byId: ById, dependsOn: DependsOn, target: Id, c: Construction): Id {
    if target in byId && Has(dependsOn, target, c) then Copy(target, c) else target
  }

  function Targets(byId: ById, dependsOn: DependsOn, target: Id, made: seq<Construction>): (r: seq<Id>)
    ensures |r| == |made| && forall i :: 0 <= i < |r| ==> r[i] == Target(byId, dependsOn, target, made[i])
  {
    if made == [] then [] else [Target(byId, dependsOn, target, made[0])] + Targets(byId, dependsOn, target, made[1..])
  }

  /** A call pointed at the ids: its one callee, or callees one of which runs, as for a call that takes a function from
      a table. */
  function PointedAt(call: Call, ids: seq<Id>): Call {
    if |ids| == 1 then call.(summary := Some(ids[0])) else call.(summary := None, possible := ids)
  }

  /** A call pointed at what it reaches on the constructions its receiver was made at. */
  function LinkedOver(byId: ById, dependsOn: DependsOn, call: Call, made: seq<Construction>): Call {
    if call.summary.None? || made == [] then call
    else PointedAt(call, Unique(Targets(byId, dependsOn, call.summary.value, made)))
  }

  function LinkedCall(byId: ById, dependsOn: DependsOn, call: Call, on: Option<Construction>): Call {
    LinkedOver(byId, dependsOn, call, MadeAt(call, on))
  }

  function LinkedEffect(byId: ById, dependsOn: DependsOn, effect: Effect, on: Option<Construction>): Effect {
    if effect.Invocation? then Invocation(LinkedCall(byId, dependsOn, effect.call, on)) else effect
  }

  function LinkedSummary(byId: ById, dependsOn: DependsOn, s: Summary, on: Option<Construction>): Summary {
    MapSummary(e => LinkedEffect(byId, dependsOn, e, on), s)
  }

  // --------------------------------------------------------------- the links

  predicate CallPoints(call: Call, id: Id) {
    call.summary == Some(id) || id in call.possible
  }

  /** Some call in the summary points at the id. */
  predicate Points(s: Summary, id: Id) {
    exists i :: 0 <= i < |EffectsOf(s)| && EffectsOf(s)[i].Invocation? && CallPoints(EffectsOf(s)[i].call, id)
  }

  /** No call already points at a copy. */
  ghost predicate NoCopiesYet(summaries: seq<Summary>) {
    forall s, id :: s in summaries && Points(s, id) ==> id.Original?
  }

  predicate IsCopy(byId: ById, dependsOn: DependsOn, id: Id) {
    id.Copy? && id.of in byId && Has(dependsOn, id.of, id.construction)
  }

  function Bare(byId: ById, id: Id): Summary
    requires id.Copy? && id.of in byId
  {
    OnConstruction(byId[id.of], id.construction)
  }

  /** The summary an id stands for once every call is linked. */
  function Ideal(byId: ById, dependsOn: DependsOn, id: Id): Option<Summary> {
    if id in byId then Some(LinkedSummary(byId, dependsOn, byId[id], None))
    else if IsCopy(byId, dependsOn, id) then Some(LinkedSummary(byId, dependsOn, Bare(byId, id), Some(id.construction)))
    else None
  }

  predicate LinksTo(byId: ById, dependsOn: DependsOn, id: Id, id': Id) {
    Ideal(byId, dependsOn, id).Some? && Points(Ideal(byId, dependsOn, id).value, id')
  }

  /** A chain of at most `n` links leads from a summary to the id. */
  ghost predicate NeededIn(byId: ById, dependsOn: DependsOn, id: Id, n: nat)
    decreases n
  {
    id in byId || (n > 0 && exists from :: NeededIn(byId, dependsOn, from, n - 1) && LinksTo(byId, dependsOn, from, id))
  }

  ghost predicate Needed(byId: ById, dependsOn: DependsOn, id: Id) {
    exists n: nat :: NeededIn(byId, dependsOn, id, n)
  }

  lemma NeededStep(byId: ById, dependsOn: DependsOn, from: Id, id: Id)
    requires Needed(byId, dependsOn, from) && LinksTo(byId, dependsOn, from, id)
    ensures Needed(byId, dependsOn, id)
  {
    var n: nat :| NeededIn(byId, dependsOn, from, n);
    assert NeededIn(byId, dependsOn, id, n + 1);
  }

  /** The id is what the call reaches for one of its receiver's constructions. */
  predicate IsTarget(byId: ById, dependsOn: DependsOn, call: Call, on: Option<Construction>, id: Id) {
    call.summary.Some? && exists c :: c in MadeAt(call, on) && id == Target(byId, dependsOn, call.summary.value, c)
  }

  lemma TargetIsUnique(byId: ById, dependsOn: DependsOn, target: Id, made: seq<Construction>, id: Id)
    ensures id in Unique(Targets(byId, dependsOn, target, made)) <==>
            exists c :: c in made && id == Target(byId, dependsOn, target, c)
  {
    var targets := Targets(byId, dependsOn, target, made);
    if id in targets {
      var i :| 0 <= i < |targets| && targets[i] == id;
      assert made[i] in made;
    }
    if c :| c in made && id == Target(byId, dependsOn, target, c) {
      var i :| 0 <= i < |made| && made[i] == c;
      assert targets[i] == id;
    }
  }

  /** What a linked call points at: a target, or what it pointed at before. */
  lemma LinkedCallPoints(byId: ById, dependsOn: DependsOn, call: Call, on: Option<Construction>, id: Id)
    ensures CallPoints(LinkedCall(byId, dependsOn, call, on), id) ==>
              CallPoints(call, id) || IsTarget(byId, dependsOn, call, on, id)
    ensures IsTarget(byId, dependsOn, call, on, id) ==> CallPoints(LinkedCall(byId, dependsOn, call, on), id)
  {
    var made := MadeAt(call, on);
    if call.summary.Some? && made != [] {
      TargetIsUnique(byId, dependsOn, call.summary.value, made, id);
      PointsThere(call, Unique(Targets(byId, dependsOn, call.summary.value, made)), id);
    }
  }

  lemma PointsThere(call: Call, ids: seq<Id>, id: Id)
    ensures CallPoints(PointedAt(call, ids), id) ==> CallPoints(call, id) || id in ids
    ensures id in ids ==> CallPoints(PointedAt(call, ids), id)
  {
    assert |ids| == 1 ==> (id in ids <==> id == ids[0]);
  }

  // -------------------------------------------------- the copies calls run on

  /** The call runs on this copy for one of its receiver's constructions. */
  predicate RunsOnCopy(byId: ById, dependsOn: DependsOn, call: Call, on: Option<Construction>, id: Id) {
    IsCopy(byId, dependsOn, id) && call.summary == Some(id.of) && id.construction in MadeAt(call, on)
  }

  function CopyFor(byId: ById, dependsOn: DependsOn, target: Id, c: Construction): seq<Id> {
    if target in byId && Has(dependsOn, target, c) then [Copy(target, c)] else []
  }

  function CopiesFor(byId: ById, dependsOn: DependsOn, target: Id, made: seq<Construction>): (r: seq<Id>)
    ensures forall id :: id in r <==> IsCopy(byId, dependsOn, id) && id.of == target && id.construction in made
  {
    if made == [] then [] else CopyFor(byId, dependsOn, target, made[0]) + CopiesFor(byId, dependsOn, target, made[1..])
  }

  /** The copies a call runs on, in the order of its receiver's constructions. */
  function CopiesOfCall(byId: ById, dependsOn: DependsOn, call: Call, on: Option<Construction>): (r: seq<Id>)
    ensures forall id :: id in r <==> RunsOnCopy(byId, dependsOn, call, on, id)
  {
    if call.summary.None? then [] else CopiesFor(byId, dependsOn, call.summary.value, MadeAt(call, on))
  }

  function CopiesOfEffect(byId: ById, dependsOn: DependsOn, effect: Effect, on: Option<Construction>): seq<Id> {
    if effect.Invocation? then CopiesOfCall(byId, dependsOn, effect.call, on) else []
  }

  /** The copies the effects' calls run on, in their order. */
  function CopiesOf(byId: ById, dependsOn: DependsOn, effects: seq<Effect>, on: Option<Construction>): (r: seq<Id>)
    ensures forall id :: id in r <==> Needs(byId, dependsOn, effects, on, id)
  {
    if effects == [] then [] else
      CopiesOfEffect(byId, dependsOn, effects[0], on) + CopiesOf(byId, dependsOn, effects[1..], on)
  }

  predicate Needs(byId: ById, dependsOn: DependsOn, effects: seq<Effect>, on: Option<Construction>, id: Id) {
    exists i :: 0 <= i < |effects| && effects[i].Invocation? && RunsOnCopy(byId, dependsOn, effects[i].call, on, id)
  }

  lemma CopiesForOneMore(byId: ById, dependsOn: DependsOn, target: Id, made: seq<Construction>, i: nat)
    requires i < |made|
    ensures CopiesFor(byId, dependsOn, target, made[..i + 1]) ==
            CopiesFor(byId, dependsOn, target, made[..i]) + CopyFor(byId, dependsOn, target, made[i])
  {
    var one := [made[i]];
    assert made[..i + 1] == made[..i] + one;
    CopiesForBoth(byId, dependsOn, target, made[..i], one);
    assert one[1..] == [];
  }

  lemma {:induction false} CopiesForBoth(
      byId: ById, dependsOn: DependsOn, target: Id, a: seq<Construction>, b: seq<Construction>)
    ensures CopiesFor(byId, dependsOn, target, a + b) ==
            CopiesFor(byId, dependsOn, target, a) + CopiesFor(byId, dependsOn, target, b)
  {
    if a == [] {
      assert a + b == b;
    } else {
      assert (a + b)[1..] == a[1..] + b;
      CopiesForBoth(byId, dependsOn, target, a[1..], b);
    }
  }

  lemma {:induction false} CopiesOfBoth(
      byId: ById, dependsOn: DependsOn, a: seq<Effect>, b: seq<Effect>, on: Option<Construction>)
    ensures CopiesOf(byId, dependsOn, a + b, on) == CopiesOf(byId, dependsOn, a, on) + CopiesOf(byId, dependsOn, b, on)
  {
    if a == [] {
      assert a + b == b;
    } else {
      var all, more := a + b, a[1..] + b;
      assert all[0] == a[0] && all[1..] == more;
      CopiesOfBoth(byId, dependsOn, a[1..], b, on);
    }
  }

  lemma CopiesOfOneMore(
      byId: ById, dependsOn: DependsOn, effects: seq<Effect>, i: nat, on: Option<Construction>)
    requires i < |effects|
    ensures CopiesOf(byId, dependsOn, effects[..i + 1], on) ==
            CopiesOf(byId, dependsOn, effects[..i], on) + CopiesOfEffect(byId, dependsOn, effects[i], on)
  {
    var one := [effects[i]];
    assert effects[..i + 1] == effects[..i] + one;
    CopiesOfBoth(byId, dependsOn, effects[..i], one, on);
    assert one[1..] == [];
  }

  lemma {:induction false} FlatJoin(a: seq<Transition>, b: seq<Transition>)
    ensures FlatEffects(a + b) == FlatEffects(a) + FlatEffects(b)
  {
    if a == [] {
      assert a + b == b;
    } else {
      assert (a + b)[1..] == a[1..] + b;
      FlatJoin(a[1..], b);
    }
  }

  lemma FlatOneMore(transitions: seq<Transition>, i: nat)
    requires i < |transitions|
    ensures FlatEffects(transitions[..i + 1]) == FlatEffects(transitions[..i]) + transitions[i].effects
  {
    assert transitions[..i + 1] == transitions[..i] + [transitions[i]];
    FlatJoin(transitions[..i], [transitions[i]]);
    assert FlatEffects([transitions[i]]) == transitions[i].effects + FlatEffects([]);
  }

  // ---------------------------------------------------------------- what a link needs

  ghost predicate PointsAtOriginals(s: Summary) {
    forall id :: Points(s, id) ==> id.Original?
  }

  lemma LinkedEffects(byId: ById, dependsOn: DependsOn, s: Summary, on: Option<Construction>)
    ensures IsLinked(byId, dependsOn, EffectsOf(s), on, EffectsOf(LinkedSummary(byId, dependsOn, s, on)))
  {
    var f := e => LinkedEffect(byId, dependsOn, e, on);
    EffectsMapped(f, s);
    assert LinkedSummary(byId, dependsOn, s, on) == MapSummary(f, s);
  }

  lemma BareEffects(s: Summary, c: Construction)
    ensures |EffectsOf(OnConstruction(s, c))| == |EffectsOf(s)|
    ensures forall i :: 0 <= i < |EffectsOf(s)| ==>
            EffectsOf(OnConstruction(s, c))[i] == WithContainerFor(EffectsOf(s)[i], c)
  {
    var f := e => WithContainerFor(e, c);
    EffectsMapped(f, s);
    assert OnConstruction(s, c).transitions == MapSummary(f, s).transitions;
  }

  /** A copy not yet linked points where the summary does. */
  lemma BarePoints(s: Summary, c: Construction, id: Id)
    ensures Points(OnConstruction(s, c), id) <==> Points(s, id)
  {
    BareEffects(s, c);
    var own, bare := EffectsOf(s), EffectsOf(OnConstruction(s, c));
    if Points(s, id) {
      var i :| 0 <= i < |own| && own[i].Invocation? && CallPoints(own[i].call, id);
      assert bare[i] == own[i];
    }
    if Points(OnConstruction(s, c), id) {
      var i :| 0 <= i < |bare| && bare[i].Invocation? && CallPoints(bare[i].call, id);
      assert bare[i] == own[i];
    }
  }

  /** A linked summary points at exactly the copies its calls need. */
  lemma LinkedPoints(byId: ById, dependsOn: DependsOn, s: Summary, on: Option<Construction>, id: Id)
    requires PointsAtOriginals(s) && IsCopy(byId, dependsOn, id)
    ensures Points(LinkedSummary(byId, dependsOn, s, on), id) <==> Needs(byId, dependsOn, EffectsOf(s), on, id)
  {
    LinkedEffects(byId, dependsOn, s, on);
    var own, linked := EffectsOf(s), EffectsOf(LinkedSummary(byId, dependsOn, s, on));
    forall i | 0 <= i < |own| && own[i].Invocation?
      ensures CallPoints(linked[i].call, id) <==> RunsOnCopy(byId, dependsOn, own[i].call, on, id)
    {
      assert linked[i] == LinkedEffect(byId, dependsOn, own[i], on);
      CallOfOriginals(s, i);
      LinkedRunsOn(byId, dependsOn, own[i].call, on, id);
    }
  }

  lemma CallOfOriginals(s: Summary, i: nat)
    requires PointsAtOriginals(s) && i < |EffectsOf(s)| && EffectsOf(s)[i].Invocation?
    ensures forall id :: CallPoints(EffectsOf(s)[i].call, id) ==> id.Original?
  {
    forall id | CallPoints(EffectsOf(s)[i].call, id)
      ensures id.Original?
    {
      assert Points(s, id);
    }
  }

  lemma LinkedRunsOn(byId: ById, dependsOn: DependsOn, call: Call, on: Option<Construction>, id: Id)
    requires IsCopy(byId, dependsOn, id) && forall k :: CallPoints(call, k) ==> k.Original?
    ensures CallPoints(LinkedCall(byId, dependsOn, call, on), id) <==> RunsOnCopy(byId, dependsOn, call, on, id)
  {
    LinkedCallPoints(byId, dependsOn, call, on, id);
    assert call.summary.Some? ==> CallPoints(call, call.summary.value);
  }

  function SourceOf(byId: ById, id: Id): Summary
    requires id in byId || (id.Copy? && id.of in byId)
  {
    if id in byId then byId[id] else Bare(byId, id)
  }

  function RunsOn(byId: ById, id: Id): Option<Construction>
    requires id in byId || id.Copy?
  {
    if id in byId then None else Some(id.construction)
  }

  lemma SourcePointsAtOriginals(summaries: seq<Summary>, byId: ById, id: Id)
    requires NoCopiesYet(summaries) && byId == IndexById(summaries)
    requires id in byId || (id.Copy? && id.of in byId)
    ensures PointsAtOriginals(SourceOf(byId, id))
  {
    if id !in byId {
      forall k | Points(Bare(byId, id), k)
        ensures k.Original?
      {
        BarePoints(byId[id.of], id.construction, k);
      }
    }
  }

  /** The copies the calls of a summary or a copy run on, in order. */
  function CopiesFrom(byId: ById, dependsOn: DependsOn, from: Id): seq<Id>
    requires from in byId || (from.Copy? && from.of in byId)
  {
    CopiesOf(byId, dependsOn, EffectsOf(SourceOf(byId, from)), RunsOn(byId, from))
  }

  // ------------------------------------------------------------ the worklist

  /** The copies made, in the order they were, and those that wait to be linked. */
  datatype Queue = Queue(order: seq<Id>, unlinked: seq<Id>)

  /** Those of the ids that are not among the copies yet join them, and wait. */
  function Enqueue(q: Queue, ids: seq<Id>): Queue
    requires Distinct(q.order)
  {
    UniqueExtends(q.order, ids);
    var order := Unique(q.order + ids);
    Queue(order, q.unlinked + order[|q.order|..])
  }

  lemma EnqueueTwice(q: Queue, a: seq<Id>, b: seq<Id>)
    requires Distinct(q.order)
    ensures Enqueue(Enqueue(q, a), b) == Enqueue(q, a + b)
  {
    var once, twice := Unique(q.order + a), Unique(Unique(q.order + a) + b);
    UniqueOfUnique(q.order + a, b);
    assert q.order + a + b == q.order + (a + b);
    UniqueExtends(q.order, a);
    UniqueExtends(once, b);
    QueuedTwice(q.order, once, twice, q.unlinked);
  }

  lemma QueuedTwice(before: seq<Id>, once: seq<Id>, twice: seq<Id>, unlinked: seq<Id>)
    requires before <= once <= twice
    ensures unlinked + once[|before|..] + twice[|once|..] == unlinked + twice[|before|..]
  {
    assert twice[|before|..] == once[|before|..] + twice[|once|..];
  }

  lemma EnqueueOne(q: Queue, id: Id)
    requires Distinct(q.order)
    ensures Enqueue(q, []) == q
    ensures Enqueue(q, [id]) == if id in q.order then q else Queue(q.order + [id], q.unlinked + [id])
  {
    assert q.order + [] == q.order;
    UniqueOfDistinct(q.order);
    UniqueLast(q.order, [], id);
    assert [] + [id] == [id];
  }

  lemma TargetQueued(byId: ById, dependsOn: DependsOn, target: Id, made: seq<Construction>, i: nat, q: Queue)
    requires i < |made| && Distinct(q.order)
    ensures Enqueue(q, CopiesFor(byId, dependsOn, target, made[..i + 1])) ==
            Enqueue(Enqueue(q, CopiesFor(byId, dependsOn, target, made[..i])),
                    CopyFor(byId, dependsOn, target, made[i]))
  {
    CopiesForOneMore(byId, dependsOn, target, made, i);
    EnqueueTwice(q, CopiesFor(byId, dependsOn, target, made[..i]), CopyFor(byId, dependsOn, target, made[i]));
  }

  lemma EffectQueued(
      byId: ById, dependsOn: DependsOn, effects: seq<Effect>, i: nat, on: Option<Construction>, q: Queue)
    requires i < |effects| && Distinct(q.order)
    ensures Enqueue(q, CopiesOf(byId, dependsOn, effects[..i + 1], on)) ==
            Enqueue(Enqueue(q, CopiesOf(byId, dependsOn, effects[..i], on)),
                    CopiesOfEffect(byId, dependsOn, effects[i], on))
  {
    CopiesOfOneMore(byId, dependsOn, effects, i, on);
    EnqueueTwice(q, CopiesOf(byId, dependsOn, effects[..i], on), CopiesOfEffect(byId, dependsOn, effects[i], on));
  }

  lemma TransitionQueued(
      byId: ById, dependsOn: DependsOn, from: seq<Transition>, i: nat, on: Option<Construction>, q: Queue)
    requires i < |from| && Distinct(q.order)
    ensures Enqueue(q, CopiesOf(byId, dependsOn, FlatEffects(from[..i + 1]), on)) ==
            Enqueue(Enqueue(q, CopiesOf(byId, dependsOn, FlatEffects(from[..i]), on)),
                    CopiesOf(byId, dependsOn, from[i].effects, on))
  {
    FlatOneMore(from, i);
    CopiesOfBoth(byId, dependsOn, FlatEffects(from[..i]), from[i].effects, on);
    EnqueueTwice(q, CopiesOf(byId, dependsOn, FlatEffects(from[..i]), on),
                 CopiesOf(byId, dependsOn, from[i].effects, on));
  }

  function CopyUniverse(dependsOn: DependsOn): set<Id> {
    set p | p in Pairs(dependsOn) :: Copy(p.0, p.1)
  }

  /** Copies without repeats, and those that wait among them. */
  ghost predicate Orderly(byId: ById, dependsOn: DependsOn, q: Queue) {
    && Distinct(q.order)
    && (forall id :: id in q.order ==> IsCopy(byId, dependsOn, id))
    && (forall id :: id in q.unlinked ==> id in q.order)
  }

  lemma OrderlyMore(byId: ById, dependsOn: DependsOn, q: Queue, ids: seq<Id>)
    requires Orderly(byId, dependsOn, q) && forall id :: id in ids ==> IsCopy(byId, dependsOn, id)
    ensures Orderly(byId, dependsOn, Enqueue(q, ids)) && |q.order| <= |Enqueue(q, ids).order|
  {
    UniqueExtends(q.order, ids);
  }

  lemma CopiesFit(byId: ById, dependsOn: DependsOn, order: seq<Id>)
    requires Distinct(order) && forall id :: id in order ==> IsCopy(byId, dependsOn, id)
    ensures |order| <= |CopyUniverse(dependsOn)|
  {
    var copies := set id | id in order;
    forall id | id in copies
      ensures id in CopyUniverse(dependsOn)
    {
      assert (id.of, id.construction) in Pairs(dependsOn);
    }
    DistinctSize(order);
    SmallerSet(copies, CopyUniverse(dependsOn));
  }

  /** The queue after the copy that has waited least is linked. */
  ghost function LinkedNext(byId: ById, dependsOn: DependsOn, q: Queue): (r: Queue)
    requires Orderly(byId, dependsOn, q) && q.unlinked != []
    ensures Orderly(byId, dependsOn, r) && |q.order| <= |r.order| <= |CopyUniverse(dependsOn)|
    ensures |r.order| == |q.order| ==> |r.unlinked| < |q.unlinked|
  {
    var last := |q.unlinked| - 1;
    var rest := Queue(q.order, q.unlinked[..last]);
    assert q.unlinked[last] in q.unlinked;
    var ids := CopiesFrom(byId, dependsOn, q.unlinked[last]);
    OrderlyMore(byId, dependsOn, rest, ids);
    CopiesFit(byId, dependsOn, Enqueue(rest, ids).order);
    Enqueue(rest, ids)
  }

  lemma LastIsLinked(byId: ById, dependsOn: DependsOn, order: seq<Id>, rest: seq<Id>, id: Id)
    requires Orderly(byId, dependsOn, Queue(order, rest + [id]))
    ensures IsCopy(byId, dependsOn, id)
    ensures LinkedNext(byId, dependsOn, Queue(order, rest + [id])) ==
            Enqueue(Queue(order, rest), CopiesFrom(byId, dependsOn, id))
  {
    var unlinked := rest + [id];
    assert unlinked[|unlinked| - 1] == id && unlinked[..|unlinked| - 1] == rest;
    assert id in unlinked;
  }

  /** The copies there are once none waits. */
  ghost function Completed(byId: ById, dependsOn: DependsOn, q: Queue): seq<Id>
    requires Orderly(byId, dependsOn, q)
    decreases |CopyUniverse(dependsOn)| - |q.order|, |q.unlinked|
  {
    if q.unlinked == [] then q.order else Completed(byId, dependsOn, LinkedNext(byId, dependsOn, q))
  }

  function CopiesOfAll(byId: ById, dependsOn: DependsOn, summaries: seq<Summary>): (r: seq<Id>)
    ensures forall id :: id in r <==> exists s :: s in summaries && Needs(byId, dependsOn, EffectsOf(s), None, id)
  {
    if summaries == [] then [] else
      var last := |summaries| - 1;
      assert summaries == summaries[..last] + [summaries[last]];
      CopiesOfAll(byId, dependsOn, summaries[..last]) + CopiesOf(byId, dependsOn, EffectsOf(summaries[last]), None)
  }

  ghost function Started(byId: ById, dependsOn: DependsOn, summaries: seq<Summary>): (q: Queue)
    ensures Orderly(byId, dependsOn, q)
  {
    OrderlyMore(byId, dependsOn, Queue([], []), CopiesOfAll(byId, dependsOn, summaries));
    Enqueue(Queue([], []), CopiesOfAll(byId, dependsOn, summaries))
  }

  /** The copies in the order they are made: those the summaries run on, and then what these run on in turn. */
  ghost function CopyOrder(summaries: seq<Summary>, dependsOn: DependsOn): seq<Id> {
    var byId := IndexById(summaries);
    Completed(byId, dependsOn, Started(byId, dependsOn, summaries))
  }

  predicate Waits(unlinked: seq<Id>, linking: Option<Id>, id: Id) {
    id in unlinked || linking == Some(id)
  }

  ghost predicate IsSoFar(byId: ById, dependsOn: DependsOn, id: Id, waits: bool, copy: Summary) {
    && IsCopy(byId, dependsOn, id)
    && copy == if waits then Bare(byId, id) else LinkedSummary(byId, dependsOn, Bare(byId, id), Some(id.construction))
  }

  ghost predicate AllSoFar(
      byId: ById, dependsOn: DependsOn, copies: map<Id, Summary>, unlinked: seq<Id>, linking: Option<Id>)
  {
    forall id :: id in copies ==> IsSoFar(byId, dependsOn, id, Waits(unlinked, linking, id), copies[id])
  }

  lemma AddedSoFar(byId: ById, dependsOn: DependsOn, copies: map<Id, Summary>, unlinked: seq<Id>, linking: Option<Id>,
                   id: Id, copy: Summary)
    requires AllSoFar(byId, dependsOn, copies, unlinked, linking) && IsSoFar(byId, dependsOn, id, true, copy)
    requires id !in copies
    ensures AllSoFar(byId, dependsOn, copies[id := copy], unlinked + [id], linking)
  {
    forall k | k in copies
      ensures Waits(unlinked + [id], linking, k) == Waits(unlinked, linking, k)
    {
    }
    assert Waits(unlinked + [id], linking, id);
  }

  lemma PoppedSoFar(byId: ById, dependsOn: DependsOn, copies: map<Id, Summary>, unlinked: seq<Id>, id: Id)
    requires AllSoFar(byId, dependsOn, copies, unlinked + [id], None)
    ensures AllSoFar(byId, dependsOn, copies, unlinked, Some(id))
  {
    forall k | k in copies
      ensures Waits(unlinked + [id], None, k) == Waits(unlinked, Some(id), k)
    {
    }
  }

  lemma SettledSoFar(byId: ById, dependsOn: DependsOn, copies: map<Id, Summary>, unlinked: seq<Id>, id: Id,
                     linked: Summary)
    requires AllSoFar(byId, dependsOn, copies, unlinked, Some(id)) && IsSoFar(byId, dependsOn, id, false, linked)
    requires id !in unlinked
    ensures AllSoFar(byId, dependsOn, copies[id := linked], unlinked, None)
  {
    forall k | k in copies && k != id
      ensures Waits(unlinked, Some(id), k) == Waits(unlinked, None, k)
    {
    }
    assert !Waits(unlinked, None, id);
  }

  /** What the functions inside `withConstructions` share. */
  class CopyMaker {
    const byId: ById
    const dependsOn: DependsOn
    var copies: map<Id, Summary>
    var order: seq<Id>
    var unlinked: seq<Id>
    ghost var linking: Option<Id>

    constructor (byId: ById, dependsOn: DependsOn)
      ensures this.byId == byId && this.dependsOn == dependsOn
      ensures Valid() && Made() == Queue([], []) && linking == None
    {
      this.byId, this.dependsOn := byId, dependsOn;
      copies, order, unlinked, linking := map[], [], [], None;
    }

    /** Each copy made is of a summary, for a construction the summary depends on; it is linked unless it waits. */
    ghost predicate Valid()
      reads this
    {
      && Orderly(byId, dependsOn, Made())
      && Distinct(unlinked)
      && (linking.Some? ==> linking.value in order && linking.value !in unlinked)
      && (forall id :: id in order <==> id in copies)
      && AllSoFar(byId, dependsOn, copies, unlinked, linking)
    }

    ghost function Made(): Queue
      reads this
    {
      Queue(order, unlinked)
    }

    /** The copy of a summary for a construction, made the first time; none when the summary does nothing different on
        it. */
    method CopyOf(target: Id, c: Construction) returns (id: Option<Id>)
      requires Valid()
      modifies this`copies, this`order, this`unlinked
      ensures Valid()
      ensures id == if target in byId && Has(dependsOn, target, c) then Some(Copy(target, c)) else None
      ensures Made() == Enqueue(old(Made()), CopyFor(byId, dependsOn, target, c))
    {
      var copy := Copy(target, c);
      EnqueueOne(Made(), copy);
      if target !in byId || !Has(dependsOn, target, c) {
        return None;
      }
      if copy !in copies {
        AddCopy(copy, OnConstruction(byId[target], c));
      }
      return Some(copy);
    }

    method AddCopy(id: Id, copy: Summary)
      requires Valid() && IsCopy(byId, dependsOn, id) && copy == Bare(byId, id) && id !in copies
      modifies this`copies, this`order, this`unlinked
      ensures Valid()
      ensures Made() == Queue(old(order) + [id], old(unlinked) + [id])
    {
      AddedSoFar(byId, dependsOn, copies, unlinked, linking, id, copy);
      copies := copies[id := copy];
      order := order + [id];
      unlinked := unlinked + [id];
    }

    /** What a call reaches on a construction, made if it is a copy there was not yet. */
    method Reached(target: Id, c: Construction) returns (id: Id)
      requires Valid()
      modifies this`copies, this`order, this`unlinked
      ensures Valid()
      ensures id == Target(byId, dependsOn, target, c)
      ensures Made() == Enqueue(old(Made()), CopyFor(byId, dependsOn, target, c))
    {
      // `Target` is the callee where there is no copy.
      var copy := CopyOf(target, c);
      id := if copy.Some? then copy.value else target;
    }

    method AllReached(target: Id, made: seq<Construction>) returns (targets: seq<Id>)
      requires Valid()
      modifies this`copies, this`order, this`unlinked
      ensures Valid()
      ensures targets == Targets(byId, dependsOn, target, made)
      ensures Made() == Enqueue(old(Made()), CopiesFor(byId, dependsOn, target, made))
    {
      targets := [];
      EnqueueOne(Made(), target);
      for i := 0 to |made|
        invariant Valid()
        invariant TargetsSoFar(byId, dependsOn, target, made, i, targets)
        invariant Made() == Enqueue(old(Made()), CopiesFor(byId, dependsOn, target, made[..i]))
      {
        var reached := Reached(target, made[i]);
        TargetQueued(byId, dependsOn, target, made, i, old(Made()));
        OneMoreTarget(byId, dependsOn, target, made, i, targets, reached);
        targets := targets + [reached];
      }
      assert made[..|made|] == made;
      AreTargets(byId, dependsOn, target, made, targets);
    }

    /** A call pointed at the copies for its receiver's constructions, each of them made if it was not yet. */
    method LinkedToCopies(call: Call, on: Option<Construction>) returns (linked: Call)
      requires Valid()
      modifies this`copies, this`order, this`unlinked
      ensures Valid()
      ensures linked == LinkedCall(byId, dependsOn, call, on)
      ensures Made() == Enqueue(old(Made()), CopiesOfCall(byId, dependsOn, call, on))
    {
      var made := MadeAt(call, on);
      if call.summary.None? || made == [] {
        EnqueueOne(Made(), Original(""));
        return call;
      }
      var targets := AllReached(call.summary.value, made);
      var ids := Unique(targets);
      if |ids| == 1 {
        return if ids[0] == call.summary.value then call else call.(summary := Some(ids[0]));
      }
      return call.(summary := None, possible := ids);
    }

    method LinkedOne(effect: Effect, on: Option<Construction>) returns (linked: Effect)
      requires Valid()
      modifies this`copies, this`order, this`unlinked
      ensures Valid()
      ensures linked == LinkedEffect(byId, dependsOn, effect, on)
      ensures Made() == Enqueue(old(Made()), CopiesOfEffect(byId, dependsOn, effect, on))
    {
      if effect.Invocation? {
        var call := LinkedToCopies(effect.call, on);
        linked := Invocation(call);
      } else {
        EnqueueOne(Made(), Original(""));
        linked := effect;
      }
    }

    method LinkedEffects(effects: seq<Effect>, on: Option<Construction>) returns (linked: seq<Effect>)
      requires Valid()
      modifies this`copies, this`order, this`unlinked
      ensures Valid()
      ensures IsLinked(byId, dependsOn, effects, on, linked)
      ensures Made() == Enqueue(old(Made()), CopiesOf(byId, dependsOn, effects, on))
    {
      linked := [];
      EnqueueOne(Made(), Original(""));
      for i := 0 to |effects|
        invariant Valid()
        invariant IsLinked(byId, dependsOn, effects[..i], on, linked)
        invariant Made() == Enqueue(old(Made()), CopiesOf(byId, dependsOn, effects[..i], on))
      {
        var effect := LinkedOne(effects[i], on);
        EffectQueued(byId, dependsOn, effects, i, on, old(Made()));
        EffectLinked(byId, dependsOn, effects, i, on, linked, effect);
        linked := linked + [effect];
      }
      assert effects[..|effects|] == effects;
    }

    method LinkedTransitions(from: seq<Transition>, on: Option<Construction>) returns (to: seq<Transition>)
      requires Valid()
      modifies this`copies, this`order, this`unlinked
      ensures Valid()
      ensures LinkedSoFar(byId, dependsOn, from, on, |from|, to)
      ensures Made() == Enqueue(old(Made()), CopiesOf(byId, dependsOn, FlatEffects(from), on))
    {
      to := [];
      EnqueueOne(Made(), Original(""));
      for i := 0 to |from|
        invariant Valid()
        invariant LinkedSoFar(byId, dependsOn, from, on, i, to)
        invariant Made() == Enqueue(old(Made()), CopiesOf(byId, dependsOn, FlatEffects(from[..i]), on))
      {
        var effects := LinkedEffects(from[i].effects, on);
        TransitionQueued(byId, dependsOn, from, i, on, old(Made()));
        LinkedOneMore(byId, dependsOn, from, on, i, to, effects);
        to := to + [Transition(effects)];
      }
      assert from[..|from|] == from;
    }

    /** Computes `LinkedSummary`, and leaves no copy unmade that one of the summary's calls runs on. */
    method WithLinks(s: Summary, on: Option<Construction>) returns (linked: Summary)
      requires Valid()
      modifies this`copies, this`order, this`unlinked
      ensures Valid()
      ensures linked == LinkedSummary(byId, dependsOn, s, on)
      ensures Made() == Enqueue(old(Made()), CopiesOf(byId, dependsOn, EffectsOf(s), on))
    {
      var transitions := LinkedTransitions(s.transitions, on);
      LinkedIsLinkedSummary(byId, dependsOn, s, on, transitions);
      return s.(transitions := transitions);
    }

    method Pop() returns (id: Id)
      requires Valid() && linking == None && |unlinked| > 0
      modifies this`unlinked, this`linking
      ensures Valid() && linking == Some(id)
      ensures old(unlinked) == unlinked + [id] && copies[id] == Bare(byId, id)
    {
      var last := |unlinked| - 1;
      id := unlinked[last];
      unlinked := unlinked[..last];
      linking := Some(id);
      assert old(unlinked) == unlinked + [id];
      PoppedSoFar(byId, dependsOn, copies, unlinked, id);
    }

    /** A linked copy takes the place of the one that waited. */
    method Settle(id: Id, linked: Summary)
      requires Valid() && linking == Some(id)
      requires linked == LinkedSummary(byId, dependsOn, Bare(byId, id), Some(id.construction))
      modifies this`copies, this`linking
      ensures Valid() && linking == None
    {
      SettledSoFar(byId, dependsOn, copies, unlinked, id, linked);
      copies := copies[id := linked];
      linking := None;
    }

    /** Links the copy that has waited least, which may make more of them. */
    method LinkNext()
      requires Valid() && linking == None && |unlinked| > 0 && OriginalKeys(byId)
      modifies this
      ensures Valid() && linking == None
      ensures Made() == LinkedNext(byId, dependsOn, old(Made()))
    {
      var id := Pop();
      LastIsLinked(byId, dependsOn, order, unlinked, id);
      LinkCopy(id);
    }

    /** Links one copy, with exactly the copies it runs on made. */
    method LinkCopy(id: Id)
      requires Valid() && linking == Some(id) && OriginalKeys(byId)
      requires IsCopy(byId, dependsOn, id) && id in copies && copies[id] == Bare(byId, id)
      modifies this
      ensures Valid() && linking == None
      ensures Made() == Enqueue(old(Made()), CopiesFrom(byId, dependsOn, id))
    {
      var bare := copies[id];
      var linked := WithLinks(bare, Some(id.construction));
      assert CopiesOf(byId, dependsOn, EffectsOf(bare), Some(id.construction)) == CopiesFrom(byId, dependsOn, id);
      Settle(id, linked);
    }

    /** Links the copies, and the copies they need in turn, until none waits. */
    method LinkCopies()
      requires Valid() && linking == None && OriginalKeys(byId)
      modifies this
      ensures Valid() && linking == None && unlinked == []
      ensures order == Completed(byId, dependsOn, old(Made()))
    {
      CopiesFit(byId, dependsOn, order);
      while |unlinked| > 0
        invariant Valid() && linking == None
        invariant Completed(byId, dependsOn, Made()) == Completed(byId, dependsOn, old(Made()))
        invariant |order| <= |CopyUniverse(dependsOn)|
        decreases |CopyUniverse(dependsOn)| - |order|, |unlinked|
      {
        LinkNext();
      }
    }
  }

  /** No key is the id of a copy. */
  ghost predicate OriginalKeys(byId: ById) {
    forall id :: id in byId ==> id.Original?
  }

  ghost predicate LinkedSoFar(byId: ById, dependsOn: DependsOn, from: seq<Transition>, on: Option<Construction>, i: nat,
                              to: seq<Transition>)
    requires i <= |from|
  {
    |to| == i && forall k :: 0 <= k < i ==> IsLinked(byId, dependsOn, from[k].effects, on, to[k].effects)
  }

  lemma LinkedOneMore(byId: ById, dependsOn: DependsOn, from: seq<Transition>, on: Option<Construction>, i: nat,
                      to: seq<Transition>, effects: seq<Effect>)
    requires i < |from| && LinkedSoFar(byId, dependsOn, from, on, i, to)
    requires IsLinked(byId, dependsOn, from[i].effects, on, effects)
    ensures LinkedSoFar(byId, dependsOn, from, on, i + 1, to + [Transition(effects)])
  {
  }

  ghost predicate IsLinked(byId: ById, dependsOn: DependsOn, from: seq<Effect>, on: Option<Construction>,
                           to: seq<Effect>)
  {
    |to| == |from| && forall k :: 0 <= k < |to| ==> to[k] == LinkedEffect(byId, dependsOn, from[k], on)
  }

  lemma EffectLinked(byId: ById, dependsOn: DependsOn, from: seq<Effect>, i: nat, on: Option<Construction>,
                     to: seq<Effect>, linked: Effect)
    requires i < |from| && IsLinked(byId, dependsOn, from[..i], on, to)
    requires linked == LinkedEffect(byId, dependsOn, from[i], on)
    ensures IsLinked(byId, dependsOn, from[..i + 1], on, to + [linked])
  {
  }

  lemma LinkedIsLinkedSummary(byId: ById, dependsOn: DependsOn, s: Summary, on: Option<Construction>,
                              to: seq<Transition>)
    requires LinkedSoFar(byId, dependsOn, s.transitions, on, |s.transitions|, to)
    ensures s.(transitions := to) == LinkedSummary(byId, dependsOn, s, on)
  {
    var linked := LinkedSummary(byId, dependsOn, s, on).transitions;
    assert |linked| == |to|;
    forall k | 0 <= k < |to|
      ensures to[k] == linked[k]
    {
      assert IsLinked(byId, dependsOn, s.transitions[k].effects, on, to[k].effects);
      assert to[k].effects == linked[k].effects;
    }
  }

  ghost predicate TargetsSoFar(
      byId: ById, dependsOn: DependsOn, target: Id, made: seq<Construction>, i: nat, targets: seq<Id>)
    requires i <= |made|
  {
    |targets| == i && forall k :: 0 <= k < i ==> targets[k] == Target(byId, dependsOn, target, made[k])
  }

  lemma OneMoreTarget(byId: ById, dependsOn: DependsOn, target: Id, made: seq<Construction>, i: nat, targets: seq<Id>,
                      reached: Id)
    requires i < |made| && TargetsSoFar(byId, dependsOn, target, made, i, targets)
    requires reached == Target(byId, dependsOn, target, made[i])
    ensures TargetsSoFar(byId, dependsOn, target, made, i + 1, targets + [reached])
  {
  }

  lemma AreTargets(byId: ById, dependsOn: DependsOn, target: Id, made: seq<Construction>, targets: seq<Id>)
    requires TargetsSoFar(byId, dependsOn, target, made, |made|, targets)
    ensures targets == Targets(byId, dependsOn, target, made)
  {
  }

  // -------------------------------------------------- the copies made are those needed

  /** Every copy a summary's calls run on has been made. */
  ghost predicate Covers(byId: ById, dependsOn: DependsOn, copies: seq<Id>, id: Id) {
    (id in byId || (id.Copy? && id.of in byId)) && forall k :: k in CopiesFrom(byId, dependsOn, id) ==> k in copies
  }

  /** The copies made so far are needed, and what does not wait has every copy its calls run on. */
  ghost predicate MadeSoFar(byId: ById, dependsOn: DependsOn, q: Queue) {
    && (forall id :: id in q.order ==> Needed(byId, dependsOn, id))
    && (forall id :: id in q.order && id !in q.unlinked ==> Covers(byId, dependsOn, q.order, id))
    && (forall id :: id in byId ==> Covers(byId, dependsOn, q.order, id))
  }

  lemma {:induction false} AllNeededAreMade(
      summaries: seq<Summary>, byId: ById, dependsOn: DependsOn, copies: seq<Id>, id: Id, n: nat)
    requires OwnIds(summaries) && NoCopiesYet(summaries) && byId == IndexById(summaries)
    requires forall k :: k in byId || k in copies ==> Covers(byId, dependsOn, copies, k)
    requires NeededIn(byId, dependsOn, id, n) && IsCopy(byId, dependsOn, id)
    ensures id in copies
    decreases n
  {
    if id !in byId {
      var from :| NeededIn(byId, dependsOn, from, n - 1) && LinksTo(byId, dependsOn, from, id);
      if from !in byId {
        AllNeededAreMade(summaries, byId, dependsOn, copies, from, n - 1);
      }
      SourcePointsAtOriginals(summaries, byId, from);
      LinkedPoints(byId, dependsOn, SourceOf(byId, from), RunsOn(byId, from), id);
      assert Covers(byId, dependsOn, copies, from);
    }
  }

  lemma CopiesAreNeeded(summaries: seq<Summary>, byId: ById, dependsOn: DependsOn, from: Id, id: Id)
    requires NoCopiesYet(summaries) && byId == IndexById(summaries)
    requires from in byId || IsCopy(byId, dependsOn, from)
    requires Needed(byId, dependsOn, from) && id in CopiesFrom(byId, dependsOn, from)
    ensures Needed(byId, dependsOn, id)
  {
    SourcePointsAtOriginals(summaries, byId, from);
    LinkedPoints(byId, dependsOn, SourceOf(byId, from), RunsOn(byId, from), id);
    NeededStep(byId, dependsOn, from, id);
  }

  lemma StartedSoFar(summaries: seq<Summary>, byId: ById, dependsOn: DependsOn)
    requires OwnIds(summaries) && NoCopiesYet(summaries) && byId == IndexById(summaries)
    ensures MadeSoFar(byId, dependsOn, Started(byId, dependsOn, summaries))
  {
    var q := Started(byId, dependsOn, summaries);
    forall id | id in q.order
      ensures Needed(byId, dependsOn, id) && id in q.unlinked
    {
      var s :| s in summaries && Needs(byId, dependsOn, EffectsOf(s), None, id);
      var i :| 0 <= i < |summaries| && summaries[i] == s;
      OwnEntry(summaries, i);
      assert NeededIn(byId, dependsOn, s.id, 0);
      CopiesAreNeeded(summaries, byId, dependsOn, s.id, id);
    }
    forall id | id in byId
      ensures Covers(byId, dependsOn, q.order, id)
    {
      assert byId[id] in summaries;
    }
  }

  lemma NextSoFar(summaries: seq<Summary>, byId: ById, dependsOn: DependsOn, q: Queue)
    requires NoCopiesYet(summaries) && byId == IndexById(summaries)
    requires Orderly(byId, dependsOn, q) && q.unlinked != [] && MadeSoFar(byId, dependsOn, q)
    ensures MadeSoFar(byId, dependsOn, LinkedNext(byId, dependsOn, q))
  {
    var last := |q.unlinked| - 1;
    var from, rest := q.unlinked[last], q.unlinked[..last];
    assert q.unlinked == rest + [from];
    LastIsLinked(byId, dependsOn, q.order, rest, from);
    assert from in q.unlinked;
    EnqueuedSoFar(summaries, byId, dependsOn, q.order, rest, from, CopiesFrom(byId, dependsOn, from));
  }

  lemma EnqueuedSoFar(summaries: seq<Summary>, byId: ById, dependsOn: DependsOn, order: seq<Id>, rest: seq<Id>,
                      from: Id, copies: seq<Id>)
    requires NoCopiesYet(summaries) && byId == IndexById(summaries)
    requires IsCopy(byId, dependsOn, from) && from in order && Distinct(order)
    requires MadeSoFar(byId, dependsOn, Queue(order, rest + [from])) && copies == CopiesFrom(byId, dependsOn, from)
    ensures MadeSoFar(byId, dependsOn, Enqueue(Queue(order, rest), copies))
  {
    UniqueExtends(order, copies);
    OneMoreSoFar(summaries, byId, dependsOn, order, rest, from, Unique(order + copies));
  }

  lemma OneMoreSoFar(summaries: seq<Summary>, byId: ById, dependsOn: DependsOn, order: seq<Id>, rest: seq<Id>, from: Id,
                     next: seq<Id>)
    requires NoCopiesYet(summaries) && byId == IndexById(summaries)
    requires IsCopy(byId, dependsOn, from) && from in order && order <= next
    requires MadeSoFar(byId, dependsOn, Queue(order, rest + [from]))
    requires forall k :: k in next <==> k in order || k in CopiesFrom(byId, dependsOn, from)
    ensures MadeSoFar(byId, dependsOn, Queue(next, rest + next[|order|..]))
  {
    forall id | id in next
      ensures Needed(byId, dependsOn, id)
    {
      if id !in order { CopiesAreNeeded(summaries, byId, dependsOn, from, id); }
    }
    forall id | id in next && id !in rest + next[|order|..]
      ensures Covers(byId, dependsOn, next, id)
    {
      StillWaits(order, next, rest, id);
      CoversMore(byId, dependsOn, order, next, from, id);
    }
    forall id | id in byId
      ensures Covers(byId, dependsOn, next, id)
    {
      CoversMore(byId, dependsOn, order, next, from, id);
    }
  }

  lemma CoversMore(byId: ById, dependsOn: DependsOn, order: seq<Id>, next: seq<Id>, from: Id, id: Id)
    requires IsCopy(byId, dependsOn, from)
    requires forall k :: k in next <==> k in order || k in CopiesFrom(byId, dependsOn, from)
    requires Covers(byId, dependsOn, order, id) || id == from
    ensures Covers(byId, dependsOn, next, id)
  {
  }

  lemma StillWaits(order: seq<Id>, order': seq<Id>, rest: seq<Id>, id: Id)
    requires order <= order' && id in order' && id !in rest + order'[|order|..]
    ensures id in order && id !in rest
  {
    assert order' == order + order'[|order|..];
  }

  lemma {:induction false} CompletedIsNeeded(summaries: seq<Summary>, byId: ById, dependsOn: DependsOn, q: Queue)
    requires OwnIds(summaries) && NoCopiesYet(summaries) && byId == IndexById(summaries)
    requires Orderly(byId, dependsOn, q) && MadeSoFar(byId, dependsOn, q)
    ensures Distinct(Completed(byId, dependsOn, q))
    ensures forall id :: id in Completed(byId, dependsOn, q) <==>
            IsCopy(byId, dependsOn, id) && Needed(byId, dependsOn, id)
    decreases |CopyUniverse(dependsOn)| - |q.order|, |q.unlinked|
  {
    if q.unlinked != [] {
      NextSoFar(summaries, byId, dependsOn, q);
      CompletedIsNeeded(summaries, byId, dependsOn, LinkedNext(byId, dependsOn, q));
    } else {
      forall id | IsCopy(byId, dependsOn, id) && Needed(byId, dependsOn, id)
        ensures id in q.order
      {
        var n: nat :| NeededIn(byId, dependsOn, id, n);
        AllNeededAreMade(summaries, byId, dependsOn, q.order, id, n);
      }
    }
  }

  /** The order has each copy some chain of links from a summary leads to, once, and nothing else. */
  lemma CopyOrderIsNeeded(summaries: seq<Summary>, dependsOn: DependsOn)
    requires OwnIds(summaries) && NoCopiesYet(summaries)
    ensures Distinct(CopyOrder(summaries, dependsOn))
    ensures forall id :: id in CopyOrder(summaries, dependsOn) <==>
              IsCopy(IndexById(summaries), dependsOn, id) && Needed(IndexById(summaries), dependsOn, id)
  {
    var byId := IndexById(summaries);
    StartedSoFar(summaries, byId, dependsOn);
    CompletedIsNeeded(summaries, byId, dependsOn, Started(byId, dependsOn, summaries));
  }

  // -------------------------------------------------------------------- the result

  /** The result lists the linked summaries, then each copy some chain of links needs, once and linked, in the order
      they were made. */
  ghost predicate Specialised(summaries: seq<Summary>, dependsOn: DependsOn, result: seq<Summary>) {
    var byId := IndexById(summaries);
    && |summaries| <= |result|
    && AllLinked(byId, dependsOn, summaries, result[..|summaries|])
    && NeededCopies(byId, dependsOn, result[|summaries|..])
    && HaveIds(result, IdList(summaries) + CopyOrder(summaries, dependsOn))
  }

  function IdList(summaries: seq<Summary>): (r: seq<Id>)
    ensures |r| == |summaries| && forall i :: 0 <= i < |r| ==> r[i] == summaries[i].id
  {
    if summaries == [] then [] else [summaries[0].id] + IdList(summaries[1..])
  }

  predicate HaveIds(summaries: seq<Summary>, ids: seq<Id>) {
    |summaries| == |ids| && forall i :: 0 <= i < |ids| ==> summaries[i].id == ids[i]
  }

  ghost predicate NeededCopies(byId: ById, dependsOn: DependsOn, made: seq<Summary>) {
    && (forall i :: 0 <= i < |made| ==> IsLinkedCopy(byId, dependsOn, made[i]))
    && (forall i, j :: 0 <= i < j < |made| ==> made[i].id != made[j].id)
    && (forall id :: Lists(made, id) <==> IsCopy(byId, dependsOn, id) && Needed(byId, dependsOn, id))
  }

  ghost predicate IsLinkedCopy(byId: ById, dependsOn: DependsOn, s: Summary) {
    IsCopy(byId, dependsOn, s.id) && Ideal(byId, dependsOn, s.id) == Some(s)
  }

  predicate Lists(summaries: seq<Summary>, id: Id) {
    exists i :: 0 <= i < |summaries| && summaries[i].id == id
  }

  function Values(copies: map<Id, Summary>, order: seq<Id>): (r: seq<Summary>)
    requires forall id :: id in order ==> id in copies
    ensures |r| == |order| && forall i :: 0 <= i < |r| ==> r[i] == copies[order[i]]
  {
    if order == [] then [] else [copies[order[0]]] + Values(copies, order[1..])
  }

  ghost predicate AllLinked(byId: ById, dependsOn: DependsOn, summaries: seq<Summary>, relinked: seq<Summary>) {
    && |relinked| == |summaries|
    && forall i :: 0 <= i < |summaries| ==> relinked[i] == LinkedSummary(byId, dependsOn, summaries[i], None)
  }

  lemma OwnEntry(summaries: seq<Summary>, i: nat)
    requires OwnIds(summaries) && i < |summaries|
    ensures summaries[i].id in IndexById(summaries) && IndexById(summaries)[summaries[i].id] == summaries[i]
  {
    assert summaries[i] in summaries;
    var found := IndexById(summaries)[summaries[i].id];
    var k :| 0 <= k < |summaries| && summaries[k] == found;
  }

  lemma CopyIdeal(summaries: seq<Summary>, byId: ById, dependsOn: DependsOn, id: Id)
    requires OwnIds(summaries) && byId == IndexById(summaries) && IsCopy(byId, dependsOn, id)
    ensures id !in byId
    ensures LinkedSummary(byId, dependsOn, Bare(byId, id), Some(id.construction)).id == id
    ensures Ideal(byId, dependsOn, id) == Some(LinkedSummary(byId, dependsOn, Bare(byId, id), Some(id.construction)))
  {
  }

  lemma CopiesAreNeededCopies(summaries: seq<Summary>, dependsOn: DependsOn, made: seq<Summary>)
    requires OwnIds(summaries) && NoCopiesYet(summaries) && HaveIds(made, CopyOrder(summaries, dependsOn))
    requires forall i :: 0 <= i < |made| ==> IsLinkedCopy(IndexById(summaries), dependsOn, made[i])
    ensures NeededCopies(IndexById(summaries), dependsOn, made)
  {
    var order := CopyOrder(summaries, dependsOn);
    CopyOrderIsNeeded(summaries, dependsOn);
    forall id
      ensures Lists(made, id) <==> id in order
    {
      if id in order {
        var i :| 0 <= i < |order| && order[i] == id;
        assert made[i].id == id;
      }
    }
  }

  lemma ResultIds(byId: ById, dependsOn: DependsOn, summaries: seq<Summary>, relinked: seq<Summary>, made: seq<Summary>,
                  order: seq<Id>)
    requires AllLinked(byId, dependsOn, summaries, relinked) && HaveIds(made, order)
    ensures HaveIds(relinked + made, IdList(summaries) + order)
  {
  }

  lemma LinkedValues(summaries: seq<Summary>, byId: ById, dependsOn: DependsOn, copies: map<Id, Summary>,
                     order: seq<Id>)
    requires OwnIds(summaries) && byId == IndexById(summaries)
    requires forall id :: id in order ==> id in copies && IsCopy(byId, dependsOn, id)
    requires forall id :: id in order ==> IsSoFar(byId, dependsOn, id, false, copies[id])
    ensures HaveIds(Values(copies, order), order)
    ensures forall i :: 0 <= i < |order| ==> IsLinkedCopy(byId, dependsOn, Values(copies, order)[i])
  {
    forall i | 0 <= i < |order|
      ensures Values(copies, order)[i].id == order[i] && IsLinkedCopy(byId, dependsOn, Values(copies, order)[i])
    {
      assert order[i] in order;
      CopyIdeal(summaries, byId, dependsOn, order[i]);
    }
  }

  /** Links the summaries, then the copies until none waits; the result is the one `Specialised` describes. */
  method WithConstructions(summaries: seq<Summary>) returns (result: seq<Summary>)
    requires OwnIds(summaries) && NoCopiesYet(summaries)
    ensures forall dependsOn :: IsDependency(summaries, dependsOn) ==> Specialised(summaries, dependsOn, result)
  {
    var byId := IndexById(summaries);
    var depended := ConstructionsDependedOn(summaries);
    var maker := new CopyMaker(byId, depended);
    var relinked := Relinked(summaries, maker);
    maker.LinkCopies();
    var made := Values(maker.copies, maker.order);
    result := relinked + made;
    LinkedValues(summaries, byId, depended, maker.copies, maker.order);
    CopiesAreNeededCopies(summaries, depended, made);
    ResultIds(byId, depended, summaries, relinked, made, maker.order);
    assert result[..|summaries|] == relinked && result[|summaries|..] == made;
    forall dependsOn | IsDependency(summaries, dependsOn)
      ensures Specialised(summaries, dependsOn, result)
    {
      DependencyIsUnique(summaries, dependsOn, depended);
    }
  }

  method Relinked(summaries: seq<Summary>, maker: CopyMaker) returns (relinked: seq<Summary>)
    requires maker.Valid() && maker.Made() == Queue([], []) && maker.linking == None
    modifies maker
    ensures maker.Valid() && maker.linking == None
    ensures AllLinked(maker.byId, maker.dependsOn, summaries, relinked)
    ensures maker.Made() == Started(maker.byId, maker.dependsOn, summaries)
  {
    relinked := [];
    EnqueueOne(maker.Made(), Original(""));
    for i := 0 to |summaries|
      invariant maker.Valid() && maker.linking == None
      invariant AllLinked(maker.byId, maker.dependsOn, summaries[..i], relinked)
      invariant maker.Made() == Started(maker.byId, maker.dependsOn, summaries[..i])
    {
      var linked := maker.WithLinks(summaries[i], None);
      StartedOneMore(maker.byId, maker.dependsOn, summaries, i);
      AllLinkedOneMore(maker.byId, maker.dependsOn, summaries, i, relinked, linked);
      relinked := relinked + [linked];
    }
    assert summaries[..|summaries|] == summaries;
  }

  lemma AllLinkedOneMore(
      byId: ById, dependsOn: DependsOn, summaries: seq<Summary>, i: nat, relinked: seq<Summary>, linked: Summary)
    requires i < |summaries| && AllLinked(byId, dependsOn, summaries[..i], relinked)
    requires linked == LinkedSummary(byId, dependsOn, summaries[i], None)
    ensures AllLinked(byId, dependsOn, summaries[..i + 1], relinked + [linked])
  {
  }

  lemma StartedOneMore(byId: ById, dependsOn: DependsOn, summaries: seq<Summary>, i: nat)
    requires i < |summaries|
    ensures Started(byId, dependsOn, summaries[..i + 1]) ==
            Enqueue(Started(byId, dependsOn, summaries[..i]), CopiesOf(byId, dependsOn, EffectsOf(summaries[i]), None))
  {
    assert summaries[..i + 1][..i] == summaries[..i];
    EnqueueTwice(Queue([], []), CopiesOfAll(byId, dependsOn, summaries[..i]),
                 CopiesOf(byId, dependsOn, EffectsOf(summaries[i]), None));
  }
}
