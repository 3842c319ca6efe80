/** JSON values as the summaries file holds them.
    A container lists its items in enumeration order; an object also lists its keys.  The
    codec treats arrays and objects alike, so one constructor covers both. */
module Json {
  import opened Sequences

  datatype Option<+T> = None | Some(value: T)

  /** A number is the literal that `JSON.stringify` prints for it. */
  datatype Atom = Null | Bool(truth: bool) | Number(literal: string) | Text(chars: string)

  datatype Names = Unnamed | Named(names: seq<string>)

  datatype Value = Primitive(atom: Atom) | Container(names: Names, items: seq<Value>)

  predicate Digit(c: char) {
    '0' <= c <= '9'
  }

  function SkipDigits(s: string): string {
    if s != "" && Digit(s[0]) then SkipDigits(s[1..]) else s
  }

  /** Section 6 of RFC 8259: minus, integer, fraction and exponent. */
  predicate IsNumberText(s: string) {
    var unsigned := if s != "" && s[0] == '-' then s[1..] else s;
    unsigned != "" && Digit(unsigned[0]) &&
    IsFractionText(if unsigned[0] == '0' then unsigned[1..] else SkipDigits(unsigned))
  }

  predicate IsFractionText(s: string) {
    if s != "" && s[0] == '.' then |s| > 1 && Digit(s[1]) && IsExponentText(SkipDigits(s[1..]))
    else IsExponentText(s)
  }

  predicate IsExponentText(s: string) {
    s == "" ||
    ((s[0] == 'e' || s[0] == 'E') &&
     var power := if |s| > 1 && (s[1] == '+' || s[1] == '-') then s[2..] else s[1..];
     power != "" && SkipDigits(power) == "")
  }

  /** An object has one key per item and no key twice, and a number's literal is one. */
  predicate WellFormed(v: Value) {
    match v
    case Primitive(Number(literal)) => IsNumberText(literal)
    case Primitive(_) => true
    case Container(names, items) =>
      && (names.Named? ==> |names.names| == |items| && Distinct(names.names))
      && forall i :: 0 <= i < |items| ==> WellFormed(items[i])
  }

  predicate AllWellFormed(vs: seq<Value>) {
    forall i :: 0 <= i < |vs| ==> WellFormed(vs[i])
  }

  /** Every container in a value, itself included. */
  function Parts(v: Value): set<Value>
    decreases v, 1
  {
    if v.Primitive? then {} else {v} + PartsOfAll(v.items)
  }

  function PartsOfAll(vs: seq<Value>): set<Value>
    decreases vs, 0
  {
    if vs == [] then {} else Parts(vs[0]) + PartsOfAll(vs[1..])
  }

  function KeysOf(v: Value): seq<string> {
    if v.Container? && v.names.Named? then v.names.names else []
  }

  const PROTO := "__proto__"

  /** Whether an object anywhere in the value has the key `__proto__`. */
  predicate HasProto(v: Value) {
    v.Container? && (PROTO in KeysOf(v) || exists i :: 0 <= i < |v.items| && HasProto(v.items[i]))
  }

  /** Decimal digits, as a number's literal has them. */
  function NatText(n: nat): (s: string)
    ensures |s| > 0
    ensures forall i :: 0 <= i < |s| ==> '0' <= s[i] <= '9'
    ensures |s| > 1 ==> s[0] != '0'
  {
    if n < 10 then [DigitChar(n)] else NatText(n / 10) + [DigitChar(n % 10)]
  }

  function DigitChar(d: nat): (c: char)
    requires d < 10
    ensures '0' <= c <= '9' && c as int == '0' as int + d
  {
    ('0' as int + d) as char
  }

  function NatOf(s: string): int {
    if s == [] then 0 else 10 * NatOf(s[..|s| - 1]) + (s[|s| - 1] as int - '0' as int)
  }

  lemma {:induction false} NatTextReadBack(n: nat)
    ensures NatOf(NatText(n)) == n
  {
    var s := NatText(n);
    if n >= 10 {
      NatTextReadBack(n / 10);
      assert s[..|s| - 1] == NatText(n / 10);
    } else {
      assert s[..|s| - 1] == [];
    }
  }

  lemma NatTextInjective(a: nat, b: nat)
    requires NatText(a) == NatText(b)
    ensures a == b
  {
    NatTextReadBack(a);
    NatTextReadBack(b);
  }

  lemma {:induction false} AllDigits(s: string)
    requires forall i :: 0 <= i < |s| ==> Digit(s[i])
    ensures SkipDigits(s) == ""
  {
    if s != "" { AllDigits(s[1..]); }
  }

  lemma NatTextIsNumber(n: nat)
    ensures IsNumberText(NatText(n))
  {
    var s := NatText(n);
    AllDigits(s);
    assert IsExponentText("");
  }
}
