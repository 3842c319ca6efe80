/** The conditions a summary records, and the values they read. */
module Predicates {
  datatype Derivation =
    | PropertyAccess(property: string)
    | MethodCall(name: string, args: seq<string>)
    | Destructured(field: string)
    | Awaited
    // A numeric index is the property of that name.
    | IndexAccess(index: string)

  /** A value as the running program has it. An object's properties are all that a read by name sees. */
  datatype JsValue =
    | Undefined
    | Null
    | Boolean(truth: bool)
    | Number(number: real)
    | NotANumber
    | Text(text: string)
    | BigInt(integer: int)
    | Symbol(id: nat)
    | Function(id: nat)
    | Object(id: nat, properties: map<string, JsValue>)

  datatype ValueRef =
    | Input(name: string, path: seq<string>)
    | Dependency(name: string, accessChain: seq<string>)
    | Derived(from: ValueRef, derivation: Derivation)
    | Literal(value: JsValue)
    | State(name: string)
    | Unresolved(sourceText: string)

  datatype Comparison = Eq | Neq | Gt | Gte | Lt | Lte
  datatype Connective = And | Or

  datatype Predicate =
    | NullCheck(subject: ValueRef, negated: bool)
    | TruthinessCheck(subject: ValueRef, negated: bool)
    | Compare(left: ValueRef, op: Comparison, right: ValueRef)
    | TypeCheck(subject: ValueRef, expectedType: string)
    | PropertyExists(subject: ValueRef, property: string, negated: bool)
    | Compound(connective: Connective, operands: seq<Predicate>)
    | Negation(operand: Predicate)
    | CallTest(callee: string, args: seq<ValueRef>)
    | Opaque(sourceText: string, reason: string)
}
