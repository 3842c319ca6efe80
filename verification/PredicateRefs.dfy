/** Collecting the references of a condition, mapping a function over them, and what that does to its verdict. */
module PredicateRefs {
  import opened Predicates
  import opened Interpreter
  import opened ConditionMeaning

  /** The references in a condition from left to right, those of operands included; an opaque one has none. */
  function RefsOf(p: Predicate): seq<ValueRef>
    decreases p, 0
  {
    match p
    case NullCheck(subject, _) => [subject]
    case TruthinessCheck(subject, _) => [subject]
    case TypeCheck(subject, _) => [subject]
    case PropertyExists(subject, _, _) => [subject]
    case Compare(left, _, right) => [left, right]
    case CallTest(_, args) => args
    case Compound(_, operands) => RefsOfAll(operands)
    case Negation(operand) => RefsOf(operand)
    case Opaque(_, _) => []
  }

  function RefsOfAll(operands: seq<Predicate>): seq<ValueRef>
    decreases operands, 1
  {
    if operands == [] then [] else RefsOf(operands[0]) + RefsOfAll(operands[1..])
  }

  // ---------------------------------------------------------- filling a condition's places

  /** How many places for references a condition has: a subject has one, a comparison two, a call one an argument. */
  function Places(p: Predicate): nat
    decreases p, 0
  {
    match p
    case Compare(_, _, _) => 2
    case CallTest(_, args) => |args|
    case Compound(_, operands) => PlacesOfAll(operands)
    case Negation(operand) => Places(operand)
    case Opaque(_, _) => 0
    case _ => 1
  }

  function PlacesOfAll(operands: seq<Predicate>): nat
    decreases operands, 1
  {
    if operands == [] then 0 else Places(operands[0]) + PlacesOfAll(operands[1..])
  }

  /** The condition with these references in its places, from left to right. */
  function Filled(p: Predicate, refs: seq<ValueRef>): Predicate
    requires |refs| == Places(p)
    decreases p, 0
  {
    match p
    case NullCheck(_, negated) => NullCheck(refs[0], negated)
    case TruthinessCheck(_, negated) => TruthinessCheck(refs[0], negated)
    case TypeCheck(_, expectedType) => TypeCheck(refs[0], expectedType)
    case PropertyExists(_, property, negated) => PropertyExists(refs[0], property, negated)
    case Compare(_, op, _) => Compare(refs[0], op, refs[1])
    case CallTest(callee, _) => CallTest(callee, refs)
    case Compound(connective, operands) => Compound(connective, FilledAll(operands, refs))
    case Negation(operand) => Negation(Filled(operand, refs))
    case Opaque(_, _) => p
  }

  function FilledAll(operands: seq<Predicate>, refs: seq<ValueRef>): (r: seq<Predicate>)
    requires |refs| == PlacesOfAll(operands)
    ensures |r| == |operands|
    decreases operands, 1
  {
    if operands == [] then [] else
      var n := Places(operands[0]);
      [Filled(operands[0], refs[..n])] + FilledAll(operands[1..], refs[n..])
  }

  /** The references collected are those in the condition's places: what was filled in comes out, in order. */
  lemma {:induction false} FilledRefs(p: Predicate, refs: seq<ValueRef>)
    requires |refs| == Places(p)
    ensures RefsOf(Filled(p, refs)) == refs
    decreases p, 0
  {
    match p {
      case Compound(_, operands) => FilledRefsAll(operands, refs);
      case Negation(operand) => FilledRefs(operand, refs);
      case CallTest(_, _) =>
      case Opaque(_, _) =>
      case Compare(_, _, _) => assert refs == [refs[0], refs[1]];
      case _ => assert refs == [refs[0]];
    }
  }

  lemma RefsOfFirst(p: Predicate, others: seq<Predicate>)
    ensures RefsOfAll([p] + others) == RefsOf(p) + RefsOfAll(others)
  {
    assert ([p] + others)[1..] == others;
  }

  lemma {:induction false} FilledRefsAll(operands: seq<Predicate>, refs: seq<ValueRef>)
    requires |refs| == PlacesOfAll(operands)
    ensures RefsOfAll(FilledAll(operands, refs)) == refs
    decreases operands, 1
  {
    if operands != [] {
      var n := Places(operands[0]);
      FilledRefs(operands[0], refs[..n]);
      FilledRefsAll(operands[1..], refs[n..]);
      RefsOfFirst(Filled(operands[0], refs[..n]), FilledAll(operands[1..], refs[n..]));
      assert refs == refs[..n] + refs[n..];
    }
  }

  /** Filling a condition's places with the references collected from it leaves it as it was. */
  lemma {:induction false} FilledBack(p: Predicate)
    ensures |RefsOf(p)| == Places(p) && Filled(p, RefsOf(p)) == p
    decreases p, 0
  {
    match p {
      case Compound(_, operands) => FilledBackAll(operands);
      case Negation(operand) => FilledBack(operand);
      case _ =>
    }
  }

  lemma {:induction false} FilledBackAll(operands: seq<Predicate>)
    ensures |RefsOfAll(operands)| == PlacesOfAll(operands) && FilledAll(operands, RefsOfAll(operands)) == operands
    decreases operands, 1
  {
    if operands != [] {
      FilledBack(operands[0]);
      FilledBackAll(operands[1..]);
      var first, rest := RefsOf(operands[0]), RefsOfAll(operands[1..]);
      assert (first + rest)[..|first|] == first && (first + rest)[|first|..] == rest;
      assert [operands[0]] + operands[1..] == operands;
    }
  }

  function MapRefs(replace: ValueRef -> ValueRef, refs: seq<ValueRef>): (r: seq<ValueRef>)
    ensures |r| == |refs| && forall i :: 0 <= i < |r| ==> r[i] == replace(refs[i])
  {
    if refs == [] then [] else [replace(refs[0])] + MapRefs(replace, refs[1..])
  }

  /** Maps `replace` over the references and changes nothing else of the condition. */
  function Replaced(p: Predicate, replace: ValueRef -> ValueRef): Predicate
    decreases p, 0
  {
    match p
    case NullCheck(subject, negated) => NullCheck(replace(subject), negated)
    case TruthinessCheck(subject, negated) => TruthinessCheck(replace(subject), negated)
    case TypeCheck(subject, expectedType) => TypeCheck(replace(subject), expectedType)
    case PropertyExists(subject, property, negated) => PropertyExists(replace(subject), property, negated)
    case Compare(left, op, right) => Compare(replace(left), op, replace(right))
    case CallTest(callee, args) => CallTest(callee, MapRefs(replace, args))
    case Compound(connective, operands) => Compound(connective, ReplacedAll(operands, replace))
    case Negation(operand) => Negation(Replaced(operand, replace))
    case Opaque(_, _) => p
  }

  function ReplacedAll(operands: seq<Predicate>, replace: ValueRef -> ValueRef): (r: seq<Predicate>)
    ensures |r| == |operands|
    ensures forall i :: 0 <= i < |r| ==> r[i] == Replaced(operands[i], replace)
    decreases operands, 1
  {
    if operands == [] then [] else [Replaced(operands[0], replace)] + ReplacedAll(operands[1..], replace)
  }

  lemma {:induction false} MapJoin(replace: ValueRef -> ValueRef, a: seq<ValueRef>, b: seq<ValueRef>)
    ensures MapRefs(replace, a + b) == MapRefs(replace, a) + MapRefs(replace, b)
  {
  }

  /** The image's references are the mapped references, in order. */
  lemma {:induction false} ReplacedRefs(p: Predicate, replace: ValueRef -> ValueRef)
    ensures RefsOf(Replaced(p, replace)) == MapRefs(replace, RefsOf(p))
    decreases p, 0
  {
    match p {
      case Compound(_, operands) => ReplacedRefsAll(operands, replace);
      case Negation(operand) => ReplacedRefs(operand, replace);
      case _ =>
    }
  }

  lemma {:induction false} ReplacedRefsAll(operands: seq<Predicate>, replace: ValueRef -> ValueRef)
    ensures RefsOfAll(ReplacedAll(operands, replace)) == MapRefs(replace, RefsOfAll(operands))
    decreases operands, 1
  {
    if operands != [] {
      ReplacedRefs(operands[0], replace);
      ReplacedRefsAll(operands[1..], replace);
      assert ReplacedAll(operands, replace)[1..] == ReplacedAll(operands[1..], replace);
      MapJoin(replace, RefsOf(operands[0]), RefsOfAll(operands[1..]));
    }
  }

  /** A condition replaced is the condition with the replaced references in its places. */
  lemma {:induction false} ReplacedIsFilled(p: Predicate, replace: ValueRef -> ValueRef)
    ensures |RefsOf(p)| == Places(p) && Replaced(p, replace) == Filled(p, MapRefs(replace, RefsOf(p)))
    decreases p, 0
  {
    FilledBack(p);
    match p {
      case Compound(_, operands) => ReplacedAreFilled(operands, replace);
      case Negation(operand) => ReplacedIsFilled(operand, replace);
      case _ =>
    }
  }

  lemma {:induction false} ReplacedAreFilled(operands: seq<Predicate>, replace: ValueRef -> ValueRef)
    ensures |RefsOfAll(operands)| == PlacesOfAll(operands)
    ensures ReplacedAll(operands, replace) == FilledAll(operands, MapRefs(replace, RefsOfAll(operands)))
    decreases operands, 1
  {
    FilledBackAll(operands);
    if operands != [] {
      FilledBack(operands[0]);
      ReplacedIsFilled(operands[0], replace);
      ReplacedAreFilled(operands[1..], replace);
      var first, rest := RefsOf(operands[0]), RefsOfAll(operands[1..]);
      MapJoin(replace, first, rest);
      var all := MapRefs(replace, first + rest);
      assert all[..|first|] == MapRefs(replace, first) && all[|first|..] == MapRefs(replace, rest);
    }
  }

  /** Each reference reads, where the first inputs are known, as its replacement does where the others are. */
  ghost predicate Carries(refs: seq<ValueRef>, env: Env, replace: ValueRef -> ValueRef, other: Env) {
    forall ref :: ref in refs ==> EvalValueRef(replace(ref), other) == EvalValueRef(ref, env)
  }

  /** Substitution: a condition and its image are judged alike where their references read alike. */
  lemma {:induction false} ReplacedVerdict(p: Predicate, env: Env, replace: ValueRef -> ValueRef, other: Env)
    requires Carries(RefsOf(p), env, replace, other)
    ensures EvalPredicate(Replaced(p, replace), other) == EvalPredicate(p, env)
    decreases p, 0
  {
    match p {
      case Compound(_, operands) => ReplacedVerdicts(operands, env, replace, other);
      case Negation(operand) => ReplacedVerdict(operand, env, replace, other);
      case Compare(left, _, right) => assert left in RefsOf(p) && right in RefsOf(p);
      case NullCheck(subject, _) => assert subject in RefsOf(p);
      case TruthinessCheck(subject, _) => assert subject in RefsOf(p);
      case TypeCheck(subject, _) => assert subject in RefsOf(p);
      case PropertyExists(subject, _, _) => assert subject in RefsOf(p);
      case _ =>
    }
  }

  lemma {:induction false} ReplacedVerdicts(operands: seq<Predicate>, env: Env, replace: ValueRef -> ValueRef,
                                            other: Env)
    requires Carries(RefsOfAll(operands), env, replace, other)
    ensures EvalAll(ReplacedAll(operands, replace), other) == EvalAll(operands, env)
    decreases operands, 1
  {
    if operands != [] {
      var first, rest := RefsOf(operands[0]), RefsOfAll(operands[1..]);
      assert RefsOfAll(operands) == first + rest;
      ReplacedVerdict(operands[0], env, replace, other);
      ReplacedVerdicts(operands[1..], env, replace, other);
      assert ReplacedAll(operands, replace)[1..] == ReplacedAll(operands[1..], replace);
    }
  }

  /** Two environments that agree on the collected references give one verdict. */
  lemma VerdictFromRefs(p: Predicate, env: Env, other: Env)
    requires forall ref :: ref in RefsOf(p) ==> EvalValueRef(ref, other) == EvalValueRef(ref, env)
    ensures EvalPredicate(p, other) == EvalPredicate(p, env)
  {
    var same := (ref: ValueRef) => ref;
    ReplacedVerdict(p, env, same, other);
    ReplacedBySame(p, same);
  }

  lemma {:induction false} ReplacedBySame(p: Predicate, same: ValueRef -> ValueRef)
    requires forall ref :: same(ref) == ref
    ensures Replaced(p, same) == p
    decreases p, 0
  {
    match p {
      case Compound(_, operands) =>
        forall i | 0 <= i < |operands|
          ensures ReplacedAll(operands, same)[i] == operands[i]
        {
          ReplacedBySame(operands[i], same);
        }
        assert ReplacedAll(operands, same) == operands;
      case Negation(operand) => ReplacedBySame(operand, same);
      case CallTest(_, args) => assert MapRefs(same, args) == args;
      case _ =>
    }
  }
}
