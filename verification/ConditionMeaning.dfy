/** What conditions say of values, read off the values themselves: in a world that fills in every value, and of the
    inputs that are known. */
module ConditionMeaning {
  import opened Predicates
  import opened Texts

  type Env = map<string, JsValue>

  // --------------------------------------------------------------- single values

  /** The values that do not pass as a condition. */
  predicate IsFalsy(v: JsValue) {
    v in {Undefined, Null, Boolean(false), Number(0.0), NotANumber, Text(""), BigInt(0)}
  }

  predicate IsMissing(v: JsValue) {
    v == Null || v == Undefined
  }

  /** What `typeof` says of the value. */
  predicate IsOfType(v: JsValue, name: string) {
    || (name == "undefined" && v.Undefined?)
    || (name == "boolean" && v.Boolean?)
    || (name == "number" && (v.Number? || v.NotANumber?))
    || (name == "string" && v.Text?)
    || (name == "bigint" && v.BigInt?)
    || (name == "symbol" && v.Symbol?)
    || (name == "function" && v.Function?)
    || (name == "object" && (v.Null? || v.Object?))
  }

  /** Some value is of this type, so the name is one `typeof` gives. */
  ghost predicate IsTypeName(name: string) {
    exists v :: IsOfType(v, name)
  }

  /** Objects, functions and symbols are the same by identity, other values by content, and not-a-number never is. */
  predicate IsSame(a: JsValue, b: JsValue) {
    || (a.Object? && b.Object? && a.id == b.id)
    || (a == b && !a.Object? && !a.NotANumber?)
  }

  predicate AreNumbers(a: JsValue, b: JsValue) {
    (a.Number? || a.NotANumber?) && (b.Number? || b.NotANumber?)
  }

  /** Only two numbers, or two texts, are compared in size. */
  predicate AreOrdered(a: JsValue, b: JsValue) {
    AreNumbers(a, b) || (a.Text? && b.Text?)
  }

  ghost predicate IsOrdered(op: Comparison, a: JsValue, b: JsValue)
    requires AreOrdered(a, b) && !op.Eq? && !op.Neq?
  {
    if a.Number? && b.Number? then
      match op
      case Gt => a.number > b.number
      case Gte => a.number >= b.number
      case Lt => a.number < b.number
      case Lte => a.number <= b.number
    else if a.Text? && b.Text? then
      match op
      case Gt => Precedes(b.text, a.text)
      case Gte => !Precedes(a.text, b.text)
      case Lt => Precedes(a.text, b.text)
      case Lte => !Precedes(b.text, a.text)
    else false
  }

  /** Whether a comparison can be decided on these two values, and how. */
  predicate IsDecided(op: Comparison, a: JsValue, b: JsValue) {
    op.Eq? || op.Neq? || AreOrdered(a, b)
  }

  ghost predicate Compares(op: Comparison, a: JsValue, b: JsValue)
    requires IsDecided(op, a, b)
  {
    if op.Eq? then IsSame(a, b) else if op.Neq? then !IsSame(a, b) else IsOrdered(op, a, b)
  }

  // --------------------------------------------------------------------- worlds

  /** A way of filling in what is not known: a value for each reference, a truth for each test. */
  datatype World = World(value: ValueRef -> JsValue, truth: Predicate -> bool)

  /** A property off an object, which has no value where the object has none; off anything else the world says. */
  function ReadIn(base: JsValue, property: string, otherwise: JsValue): JsValue {
    if !base.Object? then otherwise else if property in base.properties then base.properties[property] else Undefined
  }

  /** The value a reference has in a world with these inputs. */
  function ValueIn(ref: ValueRef, env: Env, w: World): JsValue
    decreases ref, if ref.Input? then |ref.path| else 0
  {
    match ref
    case Input(name, path) => InputIn(name, path, env, w)
    case Literal(value) => value
    case Derived(from, derivation) =>
      (match derivation
       case PropertyAccess(property) => ReadIn(ValueIn(from, env, w), property, w.value(ref))
       case Destructured(field) => ReadIn(ValueIn(from, env, w), field, w.value(ref))
       case IndexAccess(index) => ReadIn(ValueIn(from, env, w), index, w.value(ref))
       case MethodCall(_, _) => w.value(ref)
       case Awaited => w.value(ref))
    case _ => w.value(ref)
  }

  function InputIn(name: string, path: seq<string>, env: Env, w: World): JsValue
    decreases |path|
  {
    if path == [] then if name in env then env[name] else w.value(Input(name, path))
    else
      var last := |path| - 1;
      ReadIn(InputIn(name, path[..last], env, w), path[last], w.value(Input(name, path)))
  }

  /** Whether a condition holds in a world, where every test is one or the other. */
  ghost predicate HoldsIn(p: Predicate, env: Env, w: World)
    decreases p
  {
    match p
    case TruthinessCheck(subject, negated) => IsFalsy(ValueIn(subject, env, w)) == negated
    case NullCheck(subject, negated) => IsMissing(ValueIn(subject, env, w)) != negated
    case Compare(left, op, right) =>
      var a, b := ValueIn(left, env, w), ValueIn(right, env, w);
      if IsDecided(op, a, b) then Compares(op, a, b) else w.truth(p)
    case TypeCheck(subject, expectedType) =>
      if IsTypeName(expectedType) then IsOfType(ValueIn(subject, env, w), expectedType) else w.truth(p)
    case PropertyExists(subject, property, negated) =>
      var v := ValueIn(subject, env, w);
      if v.Object? then (property in v.properties) != negated else w.truth(p)
    case Compound(connective, operands) =>
      if connective.And? then forall i :: 0 <= i < |operands| ==> HoldsIn(operands[i], env, w)
      else exists i :: 0 <= i < |operands| && HoldsIn(operands[i], env, w)
    case Negation(operand) => !HoldsIn(operand, env, w)
    case CallTest(_, _) => w.truth(p)
    case Opaque(_, _) => w.truth(p)
  }

  // ---------------------------------------------------------------- what is known

  /** Reading the properties one after another off the value, an object at each step, ends at `v`. */
  predicate Leads(base: JsValue, path: seq<string>, v: JsValue)
    decreases |path|
  {
    if path == [] then v == base
    else base.Object? &&
         Leads(if path[0] in base.properties then base.properties[path[0]] else Undefined, path[1..], v)
  }

  /** The inputs give the reference this value: no call, no promise and nothing from outside is in the way. */
  ghost predicate IsKnown(ref: ValueRef, env: Env, v: JsValue)
    decreases ref
  {
    match ref
    case Input(name, path) => name in env && Leads(env[name], path, v)
    case Literal(value) => v == value
    case Derived(from, PropertyAccess(property)) => exists base ::
      IsKnown(from, env, base) && Leads(base, [property], v)
    case Derived(from, Destructured(field)) => exists base :: IsKnown(from, env, base) && Leads(base, [field], v)
    case Derived(from, IndexAccess(index)) => exists base :: IsKnown(from, env, base) && Leads(base, [index], v)
    case _ => false
  }

  /** The known inputs alone make the condition hold, or fail: a test when the values it reads are known and it can be
      decided on them, a compound when its operands make it so. */
  ghost predicate HasVerdict(p: Predicate, env: Env, verdict: bool)
    decreases p
  {
    match p
    case TruthinessCheck(subject, negated) => exists v :: IsKnown(subject, env, v) && verdict == (IsFalsy(v) == negated)
    case NullCheck(subject, negated) => exists v :: IsKnown(subject, env, v) && verdict == (IsMissing(v) != negated)
    case Compare(left, op, right) =>
      exists a, b :: IsKnown(left, env, a) && IsKnown(right, env, b) && IsDecided(op, a, b) &&
        verdict == Compares(op, a, b)
    case TypeCheck(subject, expectedType) =>
      IsTypeName(expectedType) && exists v :: IsKnown(subject, env, v) && verdict == IsOfType(v, expectedType)
    case PropertyExists(subject, property, negated) =>
      exists v :: IsKnown(subject, env, v) && v.Object? && verdict == ((property in v.properties) != negated)
    case Compound(connective, operands) =>
      if connective.And? == verdict then forall i :: 0 <= i < |operands| ==> HasVerdict(operands[i], env, verdict)
      else exists i :: 0 <= i < |operands| && HasVerdict(operands[i], env, verdict)
    case Negation(operand) => HasVerdict(operand, env, !verdict)
    case CallTest(_, _) => false
    case Opaque(_, _) => false
  }
}
