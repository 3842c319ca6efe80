/** The three-valued reading of a condition against the inputs that are known. */
module Interpreter {
  import opened Predicates
  import opened Texts
  import opened ConditionMeaning

  datatype Tri = True | False | Abstain

  datatype EvalValue = Known(value: JsValue) | Unknown

  // ----------------------------------------------------------------- values

  function PropertyOf(value: JsValue, property: string): JsValue
    requires value.Object?
  {
    if property in value.properties then value.properties[property] else Undefined
  }

  /** Reading off anything but an object throws or boxes, so it is not modelled. */
  function ReadProperty(base: EvalValue, property: string): EvalValue {
    if base.Known? && base.value.Object? then Known(PropertyOf(base.value, property)) else Unknown
  }

  function ReadPath(current: EvalValue, path: seq<string>): EvalValue
    decreases |path|
  {
    if path == [] then current else ReadPath(ReadProperty(current, path[0]), path[1..])
  }

  function EvalValueRef(ref: ValueRef, env: Env): EvalValue {
    match ref
    case Input(name, path) => if name in env then ReadPath(Known(env[name]), path) else Unknown
    case Literal(value) => Known(value)
    case Derived(from, derivation) =>
      (match derivation
       case PropertyAccess(property) => ReadProperty(EvalValueRef(from, env), property)
       case Destructured(field) => ReadProperty(EvalValueRef(from, env), field)
       case IndexAccess(index) => ReadProperty(EvalValueRef(from, env), index)
       // No environment settles these two.
       case MethodCall(_, _) => Unknown
       case Awaited => Unknown)
    case Dependency(_, _) => Unknown
    case State(_) => Unknown
    case Unresolved(_) => Unknown
  }

  // ------------------------------------------------------------------ truths

  function Negate(t: Tri): Tri {
    match t
    case True => False
    case False => True
    case Abstain => Abstain
  }

  function FromBoolean(b: bool): Tri {
    if b then True else False
  }

  function ApplyNegated(t: Tri, negated: bool): Tri {
    if negated then Negate(t) else t
  }

  function TriAnd(values: seq<Tri>): Tri {
    if False in values then False else if Abstain in values then Abstain else True
  }

  function TriOr(values: seq<Tri>): Tri {
    if True in values then True else if Abstain in values then Abstain else False
  }

  predicate Truthy(v: JsValue) {
    match v
    case Undefined => false
    case Null => false
    case Boolean(truth) => truth
    case Number(number) => number != 0.0
    case NotANumber => false
    case Text(text) => text != ""
    case BigInt(integer) => integer != 0
    case _ => true
  }

  predicate Nullish(v: JsValue) {
    v.Null? || v.Undefined?
  }

  function TypeOf(v: JsValue): string {
    match v
    case Undefined => "undefined"
    case Null => "object"
    case Boolean(_) => "boolean"
    case Number(_) => "number"
    case NotANumber => "number"
    case Text(_) => "string"
    case BigInt(_) => "bigint"
    case Symbol(_) => "symbol"
    case Function(_) => "function"
    case Object(_, _) => "object"
  }

  /** `===`: objects, functions and symbols by identity, and not-a-number like nothing. */
  predicate StrictlyEqual(a: JsValue, b: JsValue) {
    match (a, b)
    case (NotANumber, _) => false
    case (Object(i, _), Object(j, _)) => i == j
    case _ => a == b
  }

  predicate IsNumeric(v: JsValue) {
    v.Number? || v.NotANumber?
  }

  predicate NumberBefore(a: JsValue, b: JsValue)
    requires IsNumeric(a) && IsNumeric(b)
  {
    a.Number? && b.Number? && a.number < b.number
  }

  predicate NumberAtMost(a: JsValue, b: JsValue)
    requires IsNumeric(a) && IsNumeric(b)
  {
    a.Number? && b.Number? && a.number <= b.number
  }

  /** Comparing across types would bring in coercion, so only two numbers or two texts are ordered. */
  function Ordered(op: Comparison, a: JsValue, b: JsValue): Tri
    requires !op.Eq? && !op.Neq?
  {
    if IsNumeric(a) && IsNumeric(b) then
      FromBoolean(match op
                  case Gt => NumberBefore(b, a)
                  case Gte => NumberAtMost(b, a)
                  case Lt => NumberBefore(a, b)
                  case _ => NumberAtMost(a, b))
    else if a.Text? && b.Text? then
      FromBoolean(match op
                  case Gt => TextBefore(b.text, a.text)
                  case Gte => !TextBefore(a.text, b.text)
                  case Lt => TextBefore(a.text, b.text)
                  case _ => !TextBefore(b.text, a.text))
    else Abstain
  }

  function CompareValues(op: Comparison, a: JsValue, b: JsValue): Tri {
    match op
    case Eq => FromBoolean(StrictlyEqual(a, b))
    case Neq => FromBoolean(!StrictlyEqual(a, b))
    case _ => Ordered(op, a, b)
  }

  const TYPEOF_TYPES := {"string", "number", "boolean", "object", "undefined", "symbol", "bigint", "function"}

  function EvalPredicate(p: Predicate, env: Env): Tri
    decreases p, 0
  {
    match p
    case TruthinessCheck(subject, negated) =>
      var v := EvalValueRef(subject, env);
      if v.Unknown? then Abstain else ApplyNegated(FromBoolean(Truthy(v.value)), negated)
    case NullCheck(subject, negated) =>
      var v := EvalValueRef(subject, env);
      if v.Unknown? then Abstain else ApplyNegated(FromBoolean(Nullish(v.value)), negated)
    case Compare(left, op, right) =>
      var a, b := EvalValueRef(left, env), EvalValueRef(right, env);
      if a.Unknown? || b.Unknown? then Abstain else CompareValues(op, a.value, b.value)
    case TypeCheck(subject, expectedType) =>
      if expectedType !in TYPEOF_TYPES then Abstain else
        var v := EvalValueRef(subject, env);
        if v.Unknown? then Abstain else FromBoolean(TypeOf(v.value) == expectedType)
    case PropertyExists(subject, property, negated) =>
      var v := EvalValueRef(subject, env);
      if v.Unknown? || !v.value.Object? then Abstain
      else ApplyNegated(FromBoolean(property in v.value.properties), negated)
    case Compound(connective, operands) =>
      var values := EvalAll(operands, env);
      if connective.And? then TriAnd(values) else TriOr(values)
    case Negation(operand) => Negate(EvalPredicate(operand, env))
    case CallTest(_, _) => Abstain
    case Opaque(_, _) => Abstain
  }

  function EvalAll(conditions: seq<Predicate>, env: Env): (r: seq<Tri>)
    ensures |r| == |conditions|
    ensures forall i :: 0 <= i < |r| ==> r[i] == EvalPredicate(conditions[i], env)
    decreases conditions, 1
  {
    if conditions == [] then [] else [EvalPredicate(conditions[0], env)] + EvalAll(conditions[1..], env)
  }

  /** A transition's conditions hold when all of them do. */
  function EvalConditions(conditions: seq<Predicate>, env: Env): Tri {
    TriAnd(EvalAll(conditions, env))
  }

  // --------------------------------------------- each test, and what it says of values

  lemma TruthyIsNotFalsy(v: JsValue)
    ensures Truthy(v) <==> !IsFalsy(v)
    ensures Nullish(v) <==> IsMissing(v)
  {
  }

  lemma TypeOfIsType(v: JsValue, name: string)
    ensures TypeOf(v) == name <==> IsOfType(v, name)
  {
  }

  lemma TypeNames(name: string)
    ensures name in TYPEOF_TYPES <==> IsTypeName(name)
  {
    if name in TYPEOF_TYPES {
      var all := [Undefined, Boolean(true), NotANumber, Text(""), BigInt(0), Symbol(0), Function(0), Null];
      assert exists i :: 0 <= i < |all| && IsOfType(all[i], name) by {
        assert IsOfType(all[0], "undefined") && IsOfType(all[1], "boolean") && IsOfType(all[2], "number");
        assert IsOfType(all[3], "string") && IsOfType(all[4], "bigint") && IsOfType(all[5], "symbol");
        assert IsOfType(all[6], "function") && IsOfType(all[7], "object");
      }
    }
  }

  lemma ComparesAs(op: Comparison, a: JsValue, b: JsValue)
    ensures CompareValues(op, a, b) ==
            if !IsDecided(op, a, b) then Abstain else if Compares(op, a, b) then True else False
  {
    if a.Text? && b.Text? {
      BeforePrecedes(a.text, b.text);
      BeforePrecedes(b.text, a.text);
    }
  }

  // --------------------------------------------------------------- exactly the known

  lemma {:induction false} PathLeads(base: EvalValue, path: seq<string>, v: JsValue)
    ensures ReadPath(base, path) == Known(v) <==> base.Known? && Leads(base.value, path, v)
    decreases |path|
  {
    if path != [] {
      PathLeads(ReadProperty(base, path[0]), path[1..], v);
    } else if base.Unknown? {
      assert ReadPath(base, path) == base;
    }
  }

  lemma PropertyLeads(base: EvalValue, property: string, v: JsValue)
    ensures ReadProperty(base, property) == Known(v) <==> base.Known? && Leads(base.value, [property], v)
  {
    assert [property][1..] == [];
    PathLeads(base, [property], v);
    assert ReadPath(base, [property]) == ReadPath(ReadProperty(base, property), []);
  }

  /** The interpreter gives a reference a value exactly when the inputs do, and the same one. */
  lemma {:induction false} ValueExactly(ref: ValueRef, env: Env, v: JsValue)
    ensures EvalValueRef(ref, env) == Known(v) <==> IsKnown(ref, env, v)
    decreases ref
  {
    match ref {
      case Input(name, path) => if name in env { PathLeads(Known(env[name]), path, v); }
      case Derived(from, derivation) =>
        forall base
          ensures EvalValueRef(from, env) == Known(base) <==> IsKnown(from, env, base)
        {
          ValueExactly(from, env, base);
        }
        match derivation {
          case PropertyAccess(property) => StepExactly(from, property, env, v);
          case Destructured(field) => StepExactly(from, field, env, v);
          case IndexAccess(index) => StepExactly(from, index, env, v);
          case _ =>
        }
      case _ =>
    }
  }

  lemma StepExactly(from: ValueRef, property: string, env: Env, v: JsValue)
    requires forall base :: EvalValueRef(from, env) == Known(base) <==> IsKnown(from, env, base)
    ensures ReadProperty(EvalValueRef(from, env), property) == Known(v) <==>
            exists base :: IsKnown(from, env, base) && Leads(base, [property], v)
  {
    PropertyLeads(EvalValueRef(from, env), property, v);
  }

  /** A value the inputs give is the only one they give. */
  lemma KnownIs(ref: ValueRef, env: Env)
    ensures EvalValueRef(ref, env).Unknown? ==> forall v :: !IsKnown(ref, env, v)
    ensures EvalValueRef(ref, env).Known? ==> forall v :: IsKnown(ref, env, v) <==> v == EvalValueRef(ref, env).value
  {
    forall v
      ensures EvalValueRef(ref, env) == Known(v) <==> IsKnown(ref, env, v)
    {
      ValueExactly(ref, env, v);
    }
  }

  /** The verdict is true exactly when the known inputs make the condition hold, and false exactly when they make it
      fail; so it abstains exactly when they do neither. */
  lemma {:induction false} VerdictExactly(p: Predicate, env: Env)
    ensures EvalPredicate(p, env) == True <==> HasVerdict(p, env, true)
    ensures EvalPredicate(p, env) == False <==> HasVerdict(p, env, false)
    decreases p, 1
  {
    match p {
      case TruthinessCheck(subject, _) =>
        KnownIs(subject, env);
        forall v { TruthyIsNotFalsy(v); }
      case NullCheck(subject, _) =>
        KnownIs(subject, env);
        forall v { TruthyIsNotFalsy(v); }
      case Compare(left, op, right) => CompareExactly(left, op, right, env);
      case TypeCheck(subject, expectedType) =>
        KnownIs(subject, env);
        TypeNames(expectedType);
        forall v { TypeOfIsType(v, expectedType); }
      case PropertyExists(subject, _, _) => KnownIs(subject, env);
      case Negation(operand) => VerdictExactly(operand, env);
      case Compound(_, operands) =>
        forall i | 0 <= i < |operands|
          ensures EvalPredicate(operands[i], env) == True <==> HasVerdict(operands[i], env, true)
          ensures EvalPredicate(operands[i], env) == False <==> HasVerdict(operands[i], env, false)
        {
          VerdictExactly(operands[i], env);
        }
        CompoundExactly(p, env);
      case _ =>
    }
  }

  lemma CompareExactly(left: ValueRef, op: Comparison, right: ValueRef, env: Env)
    ensures EvalPredicate(Compare(left, op, right), env) == True <==> HasVerdict(Compare(left, op, right), env, true)
    ensures EvalPredicate(Compare(left, op, right), env) == False <==> HasVerdict(Compare(left, op, right), env, false)
  {
    KnownIs(left, env);
    KnownIs(right, env);
    var a, b := EvalValueRef(left, env), EvalValueRef(right, env);
    if a.Known? && b.Known? { ComparesAs(op, a.value, b.value); }
  }

  lemma CompoundExactly(p: Predicate, env: Env)
    requires p.Compound?
    requires forall i :: 0 <= i < |p.operands| ==>
               && (EvalPredicate(p.operands[i], env) == True <==> HasVerdict(p.operands[i], env, true))
               && (EvalPredicate(p.operands[i], env) == False <==> HasVerdict(p.operands[i], env, false))
    ensures EvalPredicate(p, env) == True <==> HasVerdict(p, env, true)
    ensures EvalPredicate(p, env) == False <==> HasVerdict(p, env, false)
  {
    var values := EvalAll(p.operands, env);
    TriExactly(values);
  }

  lemma TriExactly(values: seq<Tri>)
    ensures TriAnd(values) == True <==> forall i :: 0 <= i < |values| ==> values[i] == True
    ensures TriAnd(values) == False <==> exists i :: 0 <= i < |values| && values[i] == False
    ensures TriOr(values) == True <==> exists i :: 0 <= i < |values| && values[i] == True
    ensures TriOr(values) == False <==> forall i :: 0 <= i < |values| ==> values[i] == False
  {
    forall i | 0 <= i < |values|
      ensures values[i] in values
    {
    }
  }

  /** A transition's conditions are settled as taken exactly when each is made to hold, and as not taken exactly when
      one is made to fail. */
  lemma ConditionsExactly(conditions: seq<Predicate>, env: Env)
    ensures EvalConditions(conditions, env) == True <==>
            forall i :: 0 <= i < |conditions| ==> HasVerdict(conditions[i], env, true)
    ensures EvalConditions(conditions, env) == False <==>
            exists i :: 0 <= i < |conditions| && HasVerdict(conditions[i], env, false)
  {
    var values := EvalAll(conditions, env);
    TriExactly(values);
    forall i | 0 <= i < |conditions|
      ensures values[i] == True <==> HasVerdict(conditions[i], env, true)
      ensures values[i] == False <==> HasVerdict(conditions[i], env, false)
    {
      VerdictExactly(conditions[i], env);
    }
  }

  // ---------------------------------------------------------------- soundness

  lemma {:induction false} ReadPathLast(current: EvalValue, path: seq<string>)
    requires path != []
    ensures ReadPath(current, path) == ReadProperty(ReadPath(current, path[..|path| - 1]), path[|path| - 1])
    decreases |path|
  {
    if |path| > 1 {
      ReadPathLast(ReadProperty(current, path[0]), path[1..]);
      assert path[..|path| - 1][1..] == path[1..][..|path| - 2];
    }
  }

  lemma {:induction false} InputSound(name: string, path: seq<string>, env: Env, w: World)
    requires EvalValueRef(Input(name, path), env).Known?
    ensures InputIn(name, path, env, w) == EvalValueRef(Input(name, path), env).value
    decreases |path|
  {
    if path != [] {
      ReadPathLast(Known(env[name]), path);
      InputSound(name, path[..|path| - 1], env, w);
    }
  }

  /** A value the interpreter knows is the value in every world. */
  lemma {:induction false} ValueSound(ref: ValueRef, env: Env, w: World)
    requires EvalValueRef(ref, env).Known?
    ensures ValueIn(ref, env, w) == EvalValueRef(ref, env).value
    decreases ref
  {
    match ref {
      case Input(name, path) => InputSound(name, path, env, w);
      case Derived(from, derivation) => ValueSound(from, env, w);
      case _ =>
    }
  }

  /** A verdict other than abstaining holds in every world. */
  lemma {:induction false} VerdictSound(p: Predicate, env: Env, w: World)
    ensures EvalPredicate(p, env) == True ==> HoldsIn(p, env, w)
    ensures EvalPredicate(p, env) == False ==> !HoldsIn(p, env, w)
    decreases p
  {
    match p {
      case TruthinessCheck(subject, _) =>
        if EvalValueRef(subject, env).Known? {
          ValueSound(subject, env, w);
          TruthyIsNotFalsy(EvalValueRef(subject, env).value);
        }
      case NullCheck(subject, _) =>
        if EvalValueRef(subject, env).Known? {
          ValueSound(subject, env, w);
          TruthyIsNotFalsy(EvalValueRef(subject, env).value);
        }
      case Compare(left, op, right) =>
        if EvalValueRef(left, env).Known? && EvalValueRef(right, env).Known? {
          ValueSound(left, env, w);
          ValueSound(right, env, w);
          ComparesAs(op, EvalValueRef(left, env).value, EvalValueRef(right, env).value);
        }
      case TypeCheck(subject, expectedType) =>
        if EvalValueRef(subject, env).Known? {
          ValueSound(subject, env, w);
          TypeNames(expectedType);
          TypeOfIsType(EvalValueRef(subject, env).value, expectedType);
        }
      case PropertyExists(subject, _, _) => if EvalValueRef(subject, env).Known? { ValueSound(subject, env, w); }
      case Compound(_, operands) => CompoundSound(p, env, w);
      case Negation(operand) => VerdictSound(operand, env, w);
      case _ =>
    }
  }

  lemma {:induction false} CompoundSound(p: Predicate, env: Env, w: World)
    requires p.Compound?
    ensures EvalPredicate(p, env) == True ==> HoldsIn(p, env, w)
    ensures EvalPredicate(p, env) == False ==> !HoldsIn(p, env, w)
    decreases p, 0
  {
    var values := EvalAll(p.operands, env);
    forall i | 0 <= i < |p.operands|
      ensures values[i] == True ==> HoldsIn(p.operands[i], env, w)
      ensures values[i] == False ==> !HoldsIn(p.operands[i], env, w)
    {
      VerdictSound(p.operands[i], env, w);
    }
  }

  /** A transition the interpreter settles is taken, or not taken, in every world. */
  lemma ConditionsSound(conditions: seq<Predicate>, env: Env, w: World)
    ensures EvalConditions(conditions, env) == True ==>
            forall i :: 0 <= i < |conditions| ==> HoldsIn(conditions[i], env, w)
    ensures EvalConditions(conditions, env) == False ==>
            exists i :: 0 <= i < |conditions| && !HoldsIn(conditions[i], env, w)
  {
    var values := EvalAll(conditions, env);
    forall i | 0 <= i < |conditions|
      ensures values[i] == True ==> HoldsIn(conditions[i], env, w)
      ensures values[i] == False ==> !HoldsIn(conditions[i], env, w)
    {
      VerdictSound(conditions[i], env, w);
    }
    if EvalConditions(conditions, env) == False {
      var i :| 0 <= i < |values| && values[i] == False;
      assert !HoldsIn(conditions[i], env, w);
    }
  }

  // -------------------------------------------------------------- monotonicity

  ghost predicate Extends(env: Env, more: Env) {
    forall name :: name in env ==> name in more && more[name] == env[name]
  }

  lemma {:induction false} ValueSettled(ref: ValueRef, env: Env, more: Env)
    requires Extends(env, more) && EvalValueRef(ref, env).Known?
    ensures EvalValueRef(ref, more) == EvalValueRef(ref, env)
    decreases ref
  {
    if ref.Derived? { ValueSettled(ref.from, env, more); }
  }

  /** Adding inputs never changes a settled verdict. */
  lemma {:induction false} VerdictSettled(p: Predicate, env: Env, more: Env)
    requires Extends(env, more) && EvalPredicate(p, env) != Abstain
    ensures EvalPredicate(p, more) == EvalPredicate(p, env)
    decreases p
  {
    match p {
      case TruthinessCheck(subject, _) => ValueSettled(subject, env, more);
      case NullCheck(subject, _) => ValueSettled(subject, env, more);
      case Compare(left, _, right) => ValueSettled(left, env, more); ValueSettled(right, env, more);
      case TypeCheck(subject, _) => ValueSettled(subject, env, more);
      case PropertyExists(subject, _, _) => ValueSettled(subject, env, more);
      case Negation(operand) => VerdictSettled(operand, env, more);
      case Compound(_, operands) =>
        var values, settled := EvalAll(operands, env), EvalAll(operands, more);
        forall i | 0 <= i < |operands| && values[i] != Abstain
          ensures settled[i] == values[i]
        {
          VerdictSettled(operands[i], env, more);
        }
        MoreSettled(values, settled);
      case _ =>
    }
  }

  /** Settling more of the truths keeps a conjunction or disjunction already settled. */
  lemma MoreSettled(values: seq<Tri>, settled: seq<Tri>)
    requires |values| == |settled| && forall i :: 0 <= i < |values| && values[i] != Abstain ==> settled[i] == values[i]
    ensures TriAnd(values) != Abstain ==> TriAnd(settled) == TriAnd(values)
    ensures TriOr(values) != Abstain ==> TriOr(settled) == TriOr(values)
  {
    if False in values {
      var i :| 0 <= i < |values| && values[i] == False;
      assert settled[i] == False;
    } else if Abstain !in values {
      assert settled == values;
    }
    if True in values {
      var i :| 0 <= i < |values| && values[i] == True;
      assert settled[i] == True;
    }
  }

  /** An input map settles a transition's conditions the same however it grows. */
  lemma ConditionsSettled(conditions: seq<Predicate>, env: Env, more: Env)
    requires Extends(env, more) && EvalConditions(conditions, env) != Abstain
    ensures EvalConditions(conditions, more) == EvalConditions(conditions, env)
  {
    var values, settled := EvalAll(conditions, env), EvalAll(conditions, more);
    forall i | 0 <= i < |conditions| && values[i] != Abstain
      ensures settled[i] == values[i]
    {
      VerdictSettled(conditions[i], env, more);
    }
    MoreSettled(values, settled);
  }
}
