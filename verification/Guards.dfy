/** Guards on the results of calls: their subjects, their polarity, and the boundaries they are joined to. */
module Guards {
  import opened Json
  import opened JsonText
  import opened Predicates
  import opened Interpreter
  import opened ConditionMeaning

  datatype Polarity = Something | Nothing

  /** Where a subject comes from: a dependency or an input, never both, and the property names read off it. */
  datatype GuardSubject = GuardSubject(dependency: Option<string>, input: Option<string>, path: seq<string>)

  /** What a call does at a boundary: one of several relations, `provides` among them. */
  type Relation = string

  const PROVIDES: Relation := "provides"

  datatype BoundaryCall = BoundaryCall(does: Relation, binding: string)

  datatype BoundaryGuard = BoundaryGuard(does: Relation, binding: string, path: seq<string>,
                                         polarity: Option<Polarity>, condition: Predicate, test: Predicate)

  type Calls = map<string, BoundaryCall>

  function Flipped(polarity: Polarity, negated: bool): Polarity {
    if !negated then polarity else if polarity == Something then Nothing else Something
  }

  /** Defined for truthiness and null checks under any number of negations, each of which flips it. */
  function PolarityOf(condition: Predicate): Option<Polarity> {
    match condition
    case TruthinessCheck(_, negated) => Some(if negated then Nothing else Something)
    case NullCheck(_, negated) => Some(if negated then Something else Nothing)
    case Negation(operand) =>
      var inner := PolarityOf(operand);
      if inner.None? then None else Some(Flipped(inner.value, true))
    case _ => None
  }

  function SubjectRef(condition: Predicate): Option<ValueRef> {
    match condition
    case TruthinessCheck(subject, _) => Some(subject)
    case NullCheck(subject, _) => Some(subject)
    case TypeCheck(subject, _) => Some(subject)
    case PropertyExists(subject, _, _) => Some(subject)
    case Compare(left, _, _) => Some(left)
    case Negation(operand) => SubjectRef(operand)
    case _ => None
  }

  function NamedStep(derivation: Derivation): seq<string> {
    match derivation
    case PropertyAccess(property) => [property]
    case Destructured(field) => [field]
    case _ => []
  }

  /** Follows derivations to their start, putting each named step before the path found so far. */
  function RootOf(ref: ValueRef, path: seq<string>): Option<GuardSubject>
    decreases ref
  {
    match ref
    case Derived(from, derivation) => RootOf(from, NamedStep(derivation) + path)
    case Dependency(name, _) => Some(GuardSubject(Some(name), None, path))
    case Input(name, steps) => Some(GuardSubject(None, Some(Joined([name] + steps, ".")), path))
    case _ => None
  }

  function SubjectOf(condition: Predicate): Option<GuardSubject> {
    var ref := SubjectRef(condition);
    if ref.None? then None else RootOf(ref.value, [])
  }

  function GuardFrom(condition: Predicate, whole: Predicate, calls: Calls, negated: bool): Option<BoundaryGuard>
    decreases condition
  {
    if condition.Negation? then GuardFrom(condition.operand, whole, calls, !negated)
    else
      var subject := SubjectOf(condition);
      if subject.None? || subject.value.dependency.None? || subject.value.dependency.value !in calls then None
      else
        var call, passed := calls[subject.value.dependency.value], PolarityOf(condition);
        Some(BoundaryGuard(call.does, call.binding, subject.value.path,
                           if passed.None? then None else Some(Flipped(passed.value, negated)), whole, condition))
  }

  // ------------------------------------------------------------------ the parity

  /** A condition with its negations taken off. */
  function Core(condition: Predicate): Predicate {
    if condition.Negation? then Core(condition.operand) else condition
  }

  function MaybeFlipped(polarity: Option<Polarity>, negated: bool): Option<Polarity> {
    if polarity.None? then None else Some(Flipped(polarity.value, negated))
  }

  // --------------------------------------------------------- what a condition is about

  /** The value the condition tests, under any number of negations; of a comparison the one on the left. */
  predicate IsAbout(condition: Predicate, ref: ValueRef) {
    match Core(condition)
    case NullCheck(subject, _) => ref == subject
    case TruthinessCheck(subject, _) => ref == subject
    case TypeCheck(subject, _) => ref == subject
    case PropertyExists(subject, _, _) => ref == subject
    case Compare(left, _, _) => ref == left
    case _ => false
  }

  /** A value read off another by derivations, the first of them first. */
  function Read(root: ValueRef, steps: seq<Derivation>): ValueRef {
    if steps == [] then root else Derived(Read(root, steps[..|steps| - 1]), steps[|steps| - 1])
  }

  /** The properties the derivations name, in their order; a call, a promise and an index name none. */
  function NamesOf(steps: seq<Derivation>): seq<string> {
    if steps == [] then [] else
      var last := steps[|steps| - 1];
      NamesOf(steps[..|steps| - 1]) +
      (if last.PropertyAccess? then [last.property] else if last.Destructured? then [last.field] else [])
  }

  /** The value is read off the result of this dependency, through these properties. */
  ghost predicate Stems(ref: ValueRef, dependency: string, path: seq<string>) {
    exists chain, steps :: ref == Read(Dependency(dependency, chain), steps) && path == NamesOf(steps)
  }

  /** The value is read off an input of this dotted name, through these properties. */
  ghost predicate StemsFromInput(ref: ValueRef, input: string, path: seq<string>) {
    exists name, inside, steps :: ref == Read(Input(name, inside), steps) && path == NamesOf(steps) &&
      input == Joined([name] + inside, ".")
  }

  lemma {:induction false} SubjectIsAbout(condition: Predicate, ref: ValueRef)
    ensures SubjectRef(condition) == Some(ref) <==> IsAbout(condition, ref)
    decreases condition
  {
    if condition.Negation? { SubjectIsAbout(condition.operand, ref); }
  }

  lemma {:induction false} RootOfRead(root: ValueRef, steps: seq<Derivation>, path: seq<string>)
    ensures RootOf(Read(root, steps), path) == RootOf(root, NamesOf(steps) + path)
    decreases |steps|
  {
    if steps == [] {
      assert NamesOf(steps) + path == path;
    } else {
      var front, last := steps[..|steps| - 1], steps[|steps| - 1];
      RootOfRead(root, front, NamedStep(last) + path);
      assert NamesOf(front) + (NamedStep(last) + path) == (NamesOf(front) + NamedStep(last)) + path;
    }
  }

  lemma {:induction false} IsRead(ref: ValueRef) returns (root: ValueRef, steps: seq<Derivation>)
    ensures ref == Read(root, steps) && !root.Derived?
    decreases ref
  {
    if ref.Derived? {
      var before;
      root, before := IsRead(ref.from);
      steps := before + [ref.derivation];
      assert steps[..|steps| - 1] == before;
    } else {
      root, steps := ref, [];
    }
  }

  /** A guard's subject is where its value stems from: a dependency or an input, with the path read off it. */
  lemma RootExactly(ref: ValueRef, dependency: string, input: string, path: seq<string>)
    ensures RootOf(ref, []) == Some(GuardSubject(Some(dependency), None, path)) <==> Stems(ref, dependency, path)
    ensures RootOf(ref, []) == Some(GuardSubject(None, Some(input), path)) <==> StemsFromInput(ref, input, path)
  {
    var root, steps := IsRead(ref);
    RootOfRead(root, steps, []);
    assert NamesOf(steps) + [] == NamesOf(steps);
    if Stems(ref, dependency, path) {
      var chain, others :| ref == Read(Dependency(dependency, chain), others) && path == NamesOf(others);
      RootOfRead(Dependency(dependency, chain), others, []);
      assert NamesOf(others) + [] == NamesOf(others);
    }
    if StemsFromInput(ref, input, path) {
      var name, inside, others :| ref == Read(Input(name, inside), others) && path == NamesOf(others) &&
        input == Joined([name] + inside, ".");
      RootOfRead(Input(name, inside), others, []);
      assert NamesOf(others) + [] == NamesOf(others);
    }
  }

  /** The condition tests a value that stems from one of the calls. */
  ghost predicate IsJoined(condition: Predicate, calls: Calls) {
    exists ref, name, path :: IsAbout(condition, ref) && Stems(ref, name, path) && name in calls
  }

  /** The guard says which boundary the condition depends on, through which properties, and with which polarity. */
  ghost predicate IsGuardOf(guard: BoundaryGuard, condition: Predicate, whole: Predicate, negated: bool, calls: Calls) {
    && (exists ref, name :: IsAbout(condition, ref) && Stems(ref, name, guard.path) && name in calls &&
          calls[name] == BoundaryCall(guard.does, guard.binding))
    && guard.polarity == MaybeFlipped(PolarityOf(condition), negated)
    && guard.condition == whole
    && guard.test == Core(condition)
  }

  lemma JoinedSubject(condition: Predicate, calls: Calls)
    ensures var subject := SubjectOf(condition);
            IsJoined(condition, calls) <==>
            subject.Some? && subject.value.dependency.Some? && subject.value.dependency.value in calls
  {
    var subject, ref := SubjectOf(condition), SubjectRef(condition);
    if ref.Some? {
      SubjectIsAbout(condition, ref.value);
      if subject.Some? && subject.value.dependency.Some? {
        SubjectIsDependency(ref.value);
        RootExactly(ref.value, subject.value.dependency.value, "", subject.value.path);
      }
    }
    if IsJoined(condition, calls) {
      var other, name, path :| IsAbout(condition, other) && Stems(other, name, path) && name in calls;
      SubjectIsAbout(condition, other);
      RootExactly(other, name, "", path);
    }
  }

  lemma {:induction false} SubjectIsDependency(ref: ValueRef)
    ensures var subject := RootOf(ref, []);
            subject.Some? ==> (subject.value.dependency.Some? <==> subject.value.input.None?)
  {
    var root, steps := IsRead(ref);
    RootOfRead(root, steps, []);
  }

  /** A guard has a polarity exactly when it tests, under its negations, whether a value is there. */
  lemma {:induction false} PresenceHasPolarity(condition: Predicate)
    ensures PolarityOf(condition).Some? <==> Core(condition).TruthinessCheck? || Core(condition).NullCheck?
    decreases condition
  {
    if condition.Negation? { PresenceHasPolarity(condition.operand); }
  }

  lemma {:induction false} GuardFromCore(condition: Predicate, whole: Predicate, calls: Calls, negated: bool)
    ensures var guard, subject := GuardFrom(condition, whole, calls, negated), SubjectOf(condition);
            if subject.None? || subject.value.dependency.None? || subject.value.dependency.value !in calls
              then guard.None?
            else
              var call := calls[subject.value.dependency.value];
              guard == Some(BoundaryGuard(call.does, call.binding, subject.value.path,
                                          MaybeFlipped(PolarityOf(condition), negated), whole, Core(condition)))
    decreases condition
  {
    if condition.Negation? { GuardFromCore(condition.operand, whole, calls, !negated); }
  }

  /** The parity carried down agrees with the polarity read off the condition. */
  lemma GuardAccumulates(condition: Predicate, whole: Predicate, calls: Calls, negated: bool)
    ensures GuardFrom(condition, whole, calls, negated).Some? <==> IsJoined(condition, calls)
    ensures IsJoined(condition, calls) ==>
              IsGuardOf(GuardFrom(condition, whole, calls, negated).value, condition, whole, negated, calls)
  {
    GuardFromCore(condition, whole, calls, negated);
    JoinedSubject(condition, calls);
    if IsJoined(condition, calls) {
      var subject, ref := SubjectOf(condition).value, SubjectRef(condition).value;
      SubjectIsAbout(condition, ref);
      SubjectIsDependency(ref);
      RootExactly(ref, subject.dependency.value, "", subject.path);
    }
  }

  // ------------------------------------------------------- agreement with evaluation

  /** Whether the guard said its subject was missing: `nothing` and passed, or `something` and failed. */
  predicate SaysMissing(polarity: Polarity, passed: bool) {
    (polarity == Nothing) == passed
  }

  /** In every world, a guard that says its subject is missing found it falsy, and one that says it is there found it
      present. */
  lemma {:induction false} PolarityHolds(condition: Predicate, env: Env, w: World)
    requires PolarityOf(condition).Some?
    ensures SubjectRef(condition).Some?
    ensures SaysMissing(PolarityOf(condition).value, HoldsIn(condition, env, w)) ==>
              IsFalsy(ValueIn(SubjectRef(condition).value, env, w))
    ensures !SaysMissing(PolarityOf(condition).value, HoldsIn(condition, env, w)) ==>
              !IsMissing(ValueIn(SubjectRef(condition).value, env, w))
    decreases condition
  {
    if condition.Negation? { PolarityHolds(condition.operand, env, w); }
  }

  /** A presence check settles exactly when its subject is known. */
  lemma {:induction false} PresenceSettles(condition: Predicate, env: Env)
    requires PolarityOf(condition).Some?
    ensures SubjectRef(condition).Some?
    ensures EvalPredicate(condition, env) != Abstain <==> EvalValueRef(SubjectRef(condition).value, env).Known?
    decreases condition
  {
    if condition.Negation? { PresenceSettles(condition.operand, env); }
  }

  /** With a known subject the verdict says the same: missing means falsy, present means neither null nor undefined. */
  lemma PolarityVerdict(condition: Predicate, env: Env)
    requires PolarityOf(condition).Some? && SubjectRef(condition).Some?
    requires EvalValueRef(SubjectRef(condition).value, env).Known?
    ensures var v := EvalValueRef(SubjectRef(condition).value, env).value;
            var t := EvalPredicate(condition, env);
            && t != Abstain
            && (SaysMissing(PolarityOf(condition).value, t == True) ==> IsFalsy(v))
            && (!SaysMissing(PolarityOf(condition).value, t == True) ==> !IsMissing(v))
  {
    var w := World(_ => Undefined, _ => false);
    PresenceSettles(condition, env);
    ValueSound(SubjectRef(condition).value, env, w);
    VerdictSound(condition, env, w);
    PolarityHolds(condition, env, w);
  }

  /** A guard joined to a boundary reads a call's result, which only the running program has. */
  lemma {:induction false} BoundarySubjectUnknown(ref: ValueRef, path: seq<string>, env: Env)
    requires RootOf(ref, path).Some? && RootOf(ref, path).value.dependency.Some?
    ensures EvalValueRef(ref, env).Unknown?
    decreases ref
  {
    if ref.Derived? { BoundarySubjectUnknown(ref.from, NamedStep(ref.derivation) + path, env); }
  }

  // ---------------------------------------------------------------- the loops

  datatype Interaction = Interaction(callee: Option<string>, binding: string, relations: seq<Relation>)

  /** The calls the effects list, in order, each as often as it crosses a boundary without providing it. */
  function Crossings(effects: seq<Interaction>): seq<(string, BoundaryCall)> {
    if effects == [] then []
    else (if effects[0].callee.Some? then Crossed(effects[0], effects[0].relations) else []) + Crossings(effects[1..])
  }

  function Crossed(effect: Interaction, relations: seq<Relation>): seq<(string, BoundaryCall)>
    requires effect.callee.Some?
  {
    if relations == [] then []
    else (if relations[0] == "provides" then []
          else [(effect.callee.value, BoundaryCall(relations[0], effect.binding))])
         + Crossed(effect, relations[1..])
  }

  /** The map has exactly the callees that cross, each with its first crossing. */
  ghost predicate FirstOfEach(calls: Calls, crossings: seq<(string, BoundaryCall)>) {
    && (forall i :: 0 <= i < |crossings| ==> crossings[i].0 in calls)
    && (forall callee :: callee in calls ==>
          exists i :: 0 <= i < |crossings| && crossings[i] == (callee, calls[callee]) &&
            forall j :: 0 <= j < i ==> crossings[j].0 != callee)
  }

  lemma FirstOneMore(calls: Calls, crossings: seq<(string, BoundaryCall)>, next: (string, BoundaryCall))
    requires FirstOfEach(calls, crossings)
    ensures FirstOfEach(if next.0 in calls then calls else calls[next.0 := next.1], crossings + [next])
  {
    var calls', all := if next.0 in calls then calls else calls[next.0 := next.1], crossings + [next];
    forall callee | callee in calls'
      ensures exists i :: 0 <= i < |all| && all[i] == (callee, calls'[callee]) &&
                forall j :: 0 <= j < i ==> all[j].0 != callee
    {
      if callee in calls {
        var i :| 0 <= i < |crossings| && crossings[i] == (callee, calls[callee]) &&
          forall j :: 0 <= j < i ==> crossings[j].0 != callee;
        assert all[i] == crossings[i];
        assert forall j :: 0 <= j < i ==> all[j] == crossings[j];
      } else {
        assert all[|crossings|] == (callee, calls'[callee]);
        assert forall j :: 0 <= j < |crossings| ==> all[j] == crossings[j];
      }
    }
  }

  lemma {:induction false} CrossingsJoin(a: seq<Interaction>, effect: Interaction)
    ensures Crossings(a + [effect]) == Crossings(a) + if effect.callee.Some? then Crossed(effect, effect.relations)
            else []
  {
    if a == [] {
      assert a + [effect] == [effect];
      assert Crossings([effect][1..]) == [];
    } else {
      assert (a + [effect])[1..] == a[1..] + [effect];
      CrossingsJoin(a[1..], effect);
    }
  }

  lemma {:induction false} CrossedJoin(effect: Interaction, a: seq<Relation>, does: Relation)
    requires effect.callee.Some?
    ensures Crossed(effect, a + [does]) ==
            Crossed(effect, a) + if does == PROVIDES then []
              else [(effect.callee.value, BoundaryCall(does, effect.binding))]
  {
    if a == [] {
      assert a + [does] == [does];
      assert Crossed(effect, [does][1..]) == [];
    } else {
      assert (a + [does])[1..] == a[1..] + [does];
      CrossedJoin(effect, a[1..], does);
    }
  }

  /** Fills the map so that each callee has its first crossing; providing a boundary does not count as one. */
  method BoundaryCalls(effects: seq<Interaction>) returns (calls: Calls)
    ensures FirstOfEach(calls, Crossings(effects))
  {
    calls := map[];
    for i := 0 to |effects|
      invariant FirstOfEach(calls, Crossings(effects[..i]))
    {
      CrossingsJoin(effects[..i], effects[i]);
      assert effects[..i + 1] == effects[..i] + [effects[i]];
      if effects[i].callee.Some? {
        calls := CrossingCalls(calls, effects[i], Crossings(effects[..i]));
      } else {
        assert Crossings(effects[..i + 1]) == Crossings(effects[..i]);
      }
    }
    assert effects[..|effects|] == effects;
  }

  method CrossingCalls(before: Calls, effect: Interaction, ghost crossings: seq<(string, BoundaryCall)>)
    returns (calls: Calls)
    requires effect.callee.Some? && FirstOfEach(before, crossings)
    ensures FirstOfEach(calls, crossings + Crossed(effect, effect.relations))
  {
    calls := before;
    assert crossings + Crossed(effect, effect.relations[..0]) == crossings;
    for k := 0 to |effect.relations|
      invariant FirstOfEach(calls, crossings + Crossed(effect, effect.relations[..k]))
    {
      var does, callee := effect.relations[k], effect.callee.value;
      CrossedJoin(effect, effect.relations[..k], does);
      assert effect.relations[..k + 1] == effect.relations[..k] + [does];
      ghost var sofar := crossings + Crossed(effect, effect.relations[..k]);
      if does != PROVIDES {
        FirstOneMore(calls, sofar, (callee, BoundaryCall(does, effect.binding)));
        assert crossings + Crossed(effect, effect.relations[..k + 1]) ==
               sofar + [(callee, BoundaryCall(does, effect.binding))];
        if callee !in calls {
          calls := calls[callee := BoundaryCall(does, effect.binding)];
        }
      } else {
        assert crossings + Crossed(effect, effect.relations[..k + 1]) == sofar;
      }
    }
    assert effect.relations[..|effect.relations|] == effect.relations;
  }

  /** The conditions of which `IsJoined` holds, in their order. */
  ghost function JoinedOf(conditions: seq<Predicate>, calls: Calls): seq<Predicate> {
    if conditions == [] then []
    else (if IsJoined(conditions[0], calls) then [conditions[0]] else []) + JoinedOf(conditions[1..], calls)
  }

  ghost predicate AreGuardsOf(guards: seq<BoundaryGuard>, joined: seq<Predicate>, calls: Calls) {
    && |guards| == |joined|
    && forall k :: 0 <= k < |guards| ==> IsGuardOf(guards[k], joined[k], joined[k], false, calls)
  }

  /** One guard for each joined condition, and each guard satisfies `IsGuardOf`. */
  method BoundaryGuardsOf(conditions: seq<Predicate>, calls: Calls) returns (guards: seq<BoundaryGuard>)
    ensures AreGuardsOf(guards, JoinedOf(conditions, calls), calls)
  {
    guards := [];
    for i := 0 to |conditions|
      invariant AreGuardsOf(guards, JoinedOf(conditions[..i], calls), calls)
    {
      JoinedOneMore(conditions, i, calls);
      GuardAccumulates(conditions[i], conditions[i], calls, false);
      var guard := GuardFrom(conditions[i], conditions[i], calls, false);
      if guard.Some? {
        guards := guards + [guard.value];
      }
    }
    assert conditions[..|conditions|] == conditions;
  }

  lemma {:induction false} JoinedBoth(a: seq<Predicate>, b: seq<Predicate>, calls: Calls)
    ensures JoinedOf(a + b, calls) == JoinedOf(a, calls) + JoinedOf(b, calls)
  {
    if a == [] {
      assert a + b == b;
    } else {
      assert (a + b)[1..] == a[1..] + b;
      JoinedBoth(a[1..], b, calls);
    }
  }

  lemma JoinedOneMore(conditions: seq<Predicate>, i: nat, calls: Calls)
    requires i < |conditions|
    ensures JoinedOf(conditions[..i + 1], calls) ==
            JoinedOf(conditions[..i], calls) + if IsJoined(conditions[i], calls) then [conditions[i]] else []
  {
    assert conditions[..i + 1] == conditions[..i] + [conditions[i]];
    JoinedBoth(conditions[..i], [conditions[i]], calls);
    assert JoinedOf([conditions[i]][1..], calls) == [];
  }
}
