/** Pass one of the sharing writer: hashing into a log, and compacting the log. */
module SharedSurvey {
  import opened Json

  const SHARED_MIN_CHARS := 32

  type Key = int

  datatype Digest = Digest(key: Key, check: int)

  /** Too small to share, met for the first time, or met again. */
  datatype Kind = Small | First | Repeat

  /** One container in a log; `inside` counts the entries below it, which follow it. */
  datatype Entry = Entry(key: Key, check: int, kind: Kind, inside: nat)

  type Counts = map<Key, nat>

  /** The length of the printed text, counting each item's separator and not its escapes. */
  function Size(v: Value): nat
    decreases v, 1
  {
    match v
    case Primitive(Text(s)) => |s| + 2
    case Primitive(_) => 5
    case Container(names, items) => 2 + NamesSize(KeysOf(v)) + SizeOfAll(items)
  }

  function SizeOfAll(vs: seq<Value>): nat
    decreases vs, 0
  {
    if vs == [] then 0 else Size(vs[0]) + 1 + SizeOfAll(vs[1..])
  }

  function NamesSize(names: seq<string>): nat {
    if names == [] then 0 else NamesSize(names[..|names| - 1]) + |names[|names| - 1]| + 3
  }

  predicate Shareable(v: Value) {
    v.Container? && Size(v) >= SHARED_MIN_CHARS
  }

  lemma {:induction false} PartsAreSmaller(v: Value, part: Value)
    requires part in Parts(v)
    ensures part == v || Size(part) < Size(v)
    decreases v, 1
  {
    if part != v { PartsOfAllAreSmaller(v.items, part); }
  }

  lemma {:induction false} PartsOfAllAreSmaller(vs: seq<Value>, part: Value)
    requires part in PartsOfAll(vs)
    ensures Size(part) < SizeOfAll(vs)
    decreases vs, 0
  {
    if part in Parts(vs[0]) {
      PartsAreSmaller(vs[0], part);
    } else {
      PartsOfAllAreSmaller(vs[1..], part);
    }
  }

  // ---------------------------------------------------------------- hashing

  /** Every container of a value in preorder, each with the number of containers below it. */
  function Met(digest: Value -> Digest, v: Value): seq<Entry>
    decreases v, 1
  {
    if v.Primitive? then [] else
      var below := MetInAll(digest, v.items);
      [Entry(digest(v).key, digest(v).check, if Shareable(v) then First else Small, |below|)] + below
  }

  function MetInAll(digest: Value -> Digest, vs: seq<Value>): seq<Entry>
    decreases vs, 0
  {
    if vs == [] then [] else Met(digest, vs[0]) + MetInAll(digest, vs[1..])
  }

  lemma MetStep(digest: Value -> Digest, log: seq<Entry>, vs: seq<Value>, i: nat)
    requires i < |vs|
    ensures log + MetInAll(digest, vs[i..]) == (log + Met(digest, vs[i])) + MetInAll(digest, vs[i + 1..])
    ensures SizeOfAll(vs[i..]) == Size(vs[i]) + 1 + SizeOfAll(vs[i + 1..])
  {
    assert vs[i..][1..] == vs[i + 1..];
  }

  /** A container's entry is filled in once those inside it are logged. */
  lemma MetFilled(log: seq<Entry>, held: Entry, head: Entry, below: seq<Entry>)
    ensures ((log + [held]) + below)[|log| := head] == log + ([head] + below)
  {
  }

  lemma NamesSizeStep(names: seq<string>, i: nat)
    requires i < |names|
    ensures NamesSize(names[..i + 1]) == NamesSize(names[..i]) + |names[i]| + 3
  {
    assert names[..i + 1][..i] == names[..i];
  }

  /** Logs each container of one summary.  How the bits of a digest are mixed is not modelled. */
  class Hasher {
    const digest: Value -> Digest
    var log: seq<Entry>

    constructor (digest: Value -> Digest)
      ensures this.digest == digest && log == []
    {
      this.digest := digest;
      log := [];
    }

    method Push(key: Key, check: int, kind: Kind) returns (at: nat)
      modifies this
      ensures log == old(log) + [Entry(key, check, kind, 0)] && at == |old(log)|
    {
      log := log + [Entry(key, check, kind, 0)];
      at := |log| - 1;
    }

    method Hash(summary: Value)
      requires WellFormed(summary)
      modifies this
      ensures log == Met(digest, summary)
    {
      log := [];
      var _ := Item(summary);
    }

    /** Appends `Met` of the item and returns `Size` of it. */
    method Item(item: Value) returns (size: nat)
      requires WellFormed(item)
      modifies this
      ensures log == old(log) + Met(digest, item)
      ensures size == Size(item)
      decreases item, 1
    {
      if item.Container? {
        size := LogContainer(item);
      } else {
        size := if item.atom.Text? then |item.atom.chars| + 2 else 5;
      }
    }

    method LogContainer(node: Value) returns (size: nat)
      requires node.Container? && WellFormed(node)
      modifies this
      ensures log == old(log) + Met(digest, node)
      ensures size == Size(node)
      decreases node, 0
    {
      var at := Push(0, 0, Small);
      ghost var below := MetInAll(digest, node.items);
      ghost var all := log + below;
      var keys := KeysOf(node);
      size := 2;
      ghost var named := 0;
      assert node.items[0..] == node.items;
      for i := 0 to |node.items|
        invariant named == NamesSize(keys[..if node.names.Named? then i else 0])
        invariant size + SizeOfAll(node.items[i..]) == 2 + named + SizeOfAll(node.items)
        invariant log + MetInAll(digest, node.items[i..]) == all
      {
        MetStep(digest, log, node.items, i);
        if node.names.Named? {
          NamesSizeStep(keys, i);
          size := size + |keys[i]| + 3;
          named := named + |keys[i]| + 3;
        }
        var printed := Item(node.items[i]);
        size := size + printed + 1;
      }
      assert keys[..|keys|] == keys && log + [] == log;
      assert log == all;
      var d := digest(node);
      var head := Entry(d.key, d.check, if size >= SHARED_MIN_CHARS then First else Small, |log| - at - 1);
      MetFilled(old(log), Entry(0, 0, Small, 0), head, below);
      log := log[at := head];
    }
  }

  // -------------------------------------------------------------- surveying

  /** How one value is treated: a primitive has no entry, and only a fresh container is entered. */
  datatype Plan = Nothing | AsIs | Again | Fresh(below: seq<Plan>)

  function Count(counts: Counts, key: Key): nat {
    if key in counts then counts[key] else 0
  }

  /** What a survey decides for one value, and the counts after it. */
  function Survey(digest: Value -> Digest, v: Value, top: bool, counts: Counts): (Plan, Counts)
    decreases v, 1
  {
    if v.Primitive? then (Nothing, counts)
    else if !Shareable(v) then (AsIs, counts)
    else
      var key := digest(v).key;
      if !top && Count(counts, key) > 0 then (Again, counts[key := Count(counts, key) + 1])
      else
        var (below, after) := SurveyAll(digest, v.items, false, if top then counts else counts[key := 1]);
        (Fresh(below), after)
  }

  function SurveyAll(digest: Value -> Digest, vs: seq<Value>, top: bool, counts: Counts): (r: (seq<Plan>, Counts))
    ensures |r.0| == |vs|
    decreases vs, 0
  {
    if vs == [] then ([], counts) else
      var (plan, between) := Survey(digest, vs[0], top, counts);
      var (plans, after) := SurveyAll(digest, vs[1..], top, between);
      ([plan] + plans, after)
  }

  /** The log entries of a value treated as planned. */
  function Flat(digest: Value -> Digest, v: Value, plan: Plan): seq<Entry>
    decreases v, 1
  {
    if v.Primitive? then [] else
      var Digest(key, check) := digest(v);
      match plan
      case Nothing => []
      case AsIs => [Entry(key, check, Small, 0)]
      case Again => [Entry(key, check, Repeat, 0)]
      case Fresh(below) =>
        var rest := FlatAll(digest, v.items, below);
        [Entry(key, check, First, |rest|)] + rest
  }

  function FlatAll(digest: Value -> Digest, vs: seq<Value>, plans: seq<Plan>): seq<Entry>
    decreases vs, 0
  {
    if vs == [] || plans == [] then [] else
      Flat(digest, vs[0], plans[0]) + FlatAll(digest, vs[1..], plans[1..])
  }

  /** An entry whose `inside` is not known yet, and the place in `met` where it will be. */
  datatype Open = Open(entry: nat, after: nat)

  /** What is still to be met: the siblings left at each level, innermost last. */
  ghost function Ahead(digest: Value -> Digest, rests: seq<seq<Value>>): seq<Entry> {
    if rests == [] then [] else MetInAll(digest, rests[|rests| - 1]) + Ahead(digest, rests[..|rests| - 1])
  }

  /** What surveying the siblings left at each level, and closing each level after, ends with. */
  ghost function Finish(digest: Value -> Digest, log: seq<Entry>, counts: Counts,
                        open: seq<Open>, rests: seq<seq<Value>>): (seq<Entry>, Counts)
    requires |rests| == |open| + 1
    requires forall i :: 0 <= i < |open| ==> open[i].entry < |log|
    decreases |open|, 1
  {
    var (plans, after) := SurveyAll(digest, rests[|open|], open == [], counts);
    CloseTop(digest, log + FlatAll(digest, rests[|open|], plans), after, open, rests[..|open|])
  }

  ghost function CloseTop(digest: Value -> Digest, log: seq<Entry>, counts: Counts,
                          open: seq<Open>, rests: seq<seq<Value>>): (seq<Entry>, Counts)
    requires |rests| == |open|
    requires forall i :: 0 <= i < |open| ==> open[i].entry < |log|
    decreases |open|, 0
  {
    if open == [] then (log, counts) else
      var entry := open[|open| - 1].entry;
      Finish(digest, log[entry := log[entry].(inside := |log| - entry - 1)], counts, open[..|open| - 1], rests)
  }

  /** The survey's position agrees with the siblings left at each level. */
  ghost predicate InStep(digest: Value -> Digest, summary: Value, met: seq<Entry>, at: nat, log: seq<Entry>,
                         open: seq<Open>, rests: seq<seq<Value>>) {
    && at <= |met| && met[at..] == Ahead(digest, rests)
    && |rests| == |open| + 1
    && (forall i :: 0 <= i < |open| ==>
          open[i].entry < |log| && open[i].after == |met| - |Ahead(digest, rests[..i + 1])|)
    && (if at == 0 then open == [] && rests[0] == [summary] else rests[0] == [])
  }

  lemma SurveyStep(digest: Value -> Digest, vs: seq<Value>, top: bool, counts: Counts)
    requires vs != []
    ensures var (plan, between) := Survey(digest, vs[0], top, counts);
            var (rest, after) := SurveyAll(digest, vs[1..], top, between);
            && SurveyAll(digest, vs, top, counts) == ([plan] + rest, after)
            && FlatAll(digest, vs, [plan] + rest) == Flat(digest, vs[0], plan) + FlatAll(digest, vs[1..], rest)
  {
    var (plan, between) := Survey(digest, vs[0], top, counts);
    var rest := SurveyAll(digest, vs[1..], top, between).0;
    assert ([plan] + rest)[1..] == rest;
  }

  lemma {:induction false} NothingMet(digest: Value -> Digest, vs: seq<Value>, top: bool, counts: Counts)
    requires MetInAll(digest, vs) == []
    ensures var (plans, after) := SurveyAll(digest, vs, top, counts);
            after == counts && FlatAll(digest, vs, plans) == []
  {
    if vs != [] {
      assert Met(digest, vs[0]) == [];
      SurveyStep(digest, vs, top, counts);
      NothingMet(digest, vs[1..], top, counts);
    }
  }

  /** Primitives leave no entry, so the next entry is the next container's. */
  lemma {:induction false} NextContainer(digest: Value -> Digest, vs: seq<Value>, top: bool, counts: Counts)
    returns (rest: seq<Value>)
    requires MetInAll(digest, vs) != []
    ensures rest != [] && rest[0].Container? && |rest| <= |vs| && rest == vs[|vs| - |rest|..]
    ensures MetInAll(digest, rest) == MetInAll(digest, vs)
    ensures var (plans, after) := SurveyAll(digest, vs, top, counts);
            var (plans', after') := SurveyAll(digest, rest, top, counts);
            after == after' && FlatAll(digest, vs, plans) == FlatAll(digest, rest, plans')
  {
    if vs[0].Container? {
      rest := vs;
    } else {
      rest := NextContainer(digest, vs[1..], top, counts);
      SurveyStep(digest, vs, top, counts);
    }
  }

  lemma FinishUnfold(digest: Value -> Digest, log: seq<Entry>, counts: Counts,
                     open: seq<Open>, rests: seq<seq<Value>>)
    requires |rests| == |open| + 1
    requires forall i :: 0 <= i < |open| ==> open[i].entry < |log|
    ensures var (plans, after) := SurveyAll(digest, rests[|open|], open == [], counts);
            Finish(digest, log, counts, open, rests) ==
            CloseTop(digest, log + FlatAll(digest, rests[|open|], plans), after, open, rests[..|open|])
  {
  }

  lemma FinishOneMore(digest: Value -> Digest, log: seq<Entry>, counts: Counts,
                      open: seq<Open>, rests: seq<seq<Value>>)
    requires |rests| == |open| + 1 && rests[|open|] != []
    requires forall i :: 0 <= i < |open| ==> open[i].entry < |log|
    ensures var (plan, between) := Survey(digest, rests[|open|][0], open == [], counts);
            Finish(digest, log, counts, open, rests) ==
            Finish(digest, log + Flat(digest, rests[|open|][0], plan), between, open,
                   rests[..|open|] + [rests[|open|][1..]])
  {
    var vs := rests[|open|];
    SurveyStep(digest, vs, open == [], counts);
    var (plan, between) := Survey(digest, vs[0], open == [], counts);
    var rest := SurveyAll(digest, vs[1..], open == [], between).0;
    var rests' := rests[..|open|] + [vs[1..]];
    assert rests'[..|open|] == rests[..|open|] && rests'[|open|] == vs[1..];
    var one, more := Flat(digest, vs[0], plan), FlatAll(digest, vs[1..], rest);
    assert log + (one + more) == (log + one) + more;
    FinishUnfold(digest, log, counts, open, rests);
    FinishUnfold(digest, log + one, between, open, rests');
  }

  /** Entering a fresh container leaves the same work. */
  lemma FinishInside(digest: Value -> Digest, log: seq<Entry>, counts: Counts,
                     open: seq<Open>, rests: seq<seq<Value>>, after: nat)
    requires |rests| == |open| + 1 && rests[|open|] != []
    requires forall i :: 0 <= i < |open| ==> open[i].entry < |log|
    requires Shareable(rests[|open|][0])
    requires open != [] ==> Count(counts, digest(rests[|open|][0]).key) == 0
    ensures var v := rests[|open|][0];
            Finish(digest, log, counts, open, rests) ==
            Finish(digest, log + [Entry(digest(v).key, digest(v).check, First, 0)],
                   if open == [] then counts else counts[digest(v).key := 1],
                   open + [Open(|log|, after)], rests[..|open|] + [rests[|open|][1..]] + [v.items])
  {
    var v := rests[|open|][0];
    FinishOneMore(digest, log, counts, open, rests);
    var head := Entry(digest(v).key, digest(v).check, First, 0);
    var inner := if open == [] then counts else counts[digest(v).key := 1];
    var (below, between) := SurveyAll(digest, v.items, false, inner);
    var grown := log + [head] + FlatAll(digest, v.items, below);
    assert grown[|log| := grown[|log|].(inside := |grown| - |log| - 1)] == log + Flat(digest, v, Fresh(below));
    var open' := open + [Open(|log|, after)];
    var rests' := rests[..|open|] + [rests[|open|][1..]] + [v.items];
    assert open'[..|open|] == open && rests'[..|open'|] == rests[..|open|] + [rests[|open|][1..]];
  }

  /** The entries ahead start with the next container's own, then what is inside it. */
  lemma AheadHead(digest: Value -> Digest, below: seq<seq<Value>>, rest: seq<Value>)
    requires rest != [] && rest[0].Container?
    ensures var ahead := Ahead(digest, below + [rest]);
            var inside := MetInAll(digest, rest[0].items);
            && ahead != []
            && ahead[0] == Entry(digest(rest[0]).key, digest(rest[0]).check,
                                 if Shareable(rest[0]) then First else Small, |inside|)
            && 1 + |inside| <= |ahead|
            && ahead[1 + |inside|..] == Ahead(digest, below + [rest[1..]])
            && ahead[1..] == Ahead(digest, below + [rest[1..]] + [rest[0].items])
  {
    var outer, inside := below + [rest[1..]], MetInAll(digest, rest[0].items);
    AheadOf(digest, below, rest);
    AheadOf(digest, below, rest[1..]);
    AheadOf(digest, outer, rest[0].items);
    var head, later := Met(digest, rest[0])[0], MetInAll(digest, rest[1..]);
    HeadFirst(head, inside, later, Ahead(digest, below));
  }

  lemma AheadOf(digest: Value -> Digest, below: seq<seq<Value>>, rest: seq<Value>)
    ensures Ahead(digest, below + [rest]) == MetInAll(digest, rest) + Ahead(digest, below)
  {
    assert (below + [rest])[..|below|] == below;
  }

  lemma HeadFirst(head: Entry, inside: seq<Entry>, later: seq<Entry>, rest: seq<Entry>)
    ensures var ahead := ([head] + inside + later) + rest;
            ahead[0] == head && ahead[1..] == inside + (later + rest) && ahead[1 + |inside|..] == later + rest
  {
  }

  ghost function ClosedAt(log: seq<Entry>, open: seq<Open>): (r: seq<Entry>)
    ensures |r| == |log|
  {
    seq(|log|, (i: int) requires 0 <= i < |log| =>
      if exists k :: 0 <= k < |open| && open[k].entry == i then log[i].(inside := |log| - i - 1) else log[i])
  }

  lemma {:induction false} FinishNothingAhead(digest: Value -> Digest, log: seq<Entry>, counts: Counts,
                                              open: seq<Open>, rests: seq<seq<Value>>)
    requires |rests| == |open| + 1
    requires forall i :: 0 <= i < |open| ==> open[i].entry < |log|
    requires Ahead(digest, rests) == []
    ensures Finish(digest, log, counts, open, rests) == (ClosedAt(log, open), counts)
    decreases |open|
  {
    NothingMet(digest, rests[|open|], open == [], counts);
    assert log + [] == log;
    if open == [] {
      assert ClosedAt(log, open) == log;
    } else {
      var entry := open[|open| - 1].entry;
      var next := log[entry := log[entry].(inside := |log| - entry - 1)];
      FinishNothingAhead(digest, next, counts, open[..|open| - 1], rests[..|open|]);
      assert ClosedAt(next, open[..|open| - 1]) == ClosedAt(log, open);
    }
  }

  lemma Start(digest: Value -> Digest, summary: Value, log: seq<Entry>, counts: Counts)
    ensures InStep(digest, summary, Met(digest, summary), 0, log, [], [[summary]])
    ensures var (plan, after) := Survey(digest, summary, true, counts);
            Finish(digest, log, counts, [], [[summary]]) == (log + Flat(digest, summary, plan), after)
  {
    var rests := [[summary]];
    FinishOneMore(digest, log, counts, [], rests);
    assert rests[..0] + [rests[0][1..]] == [[]];
    var (plan, after) := Survey(digest, summary, true, counts);
    assert log + Flat(digest, summary, plan) + [] == log + Flat(digest, summary, plan);
    assert Met(digest, summary)[0..] == MetInAll(digest, [summary]) + Ahead(digest, rests[..0]) by {
      assert [summary][1..] == [] && rests[..0] == [];
      assert Met(digest, summary) + [] == Met(digest, summary);
    }
  }

  /** Closing a level with nothing ahead in it keeps step. */
  lemma Close(digest: Value -> Digest, summary: Value, met: seq<Entry>, at: nat, log: seq<Entry>, counts: Counts,
              open: seq<Open>, rests: seq<seq<Value>>)
    requires InStep(digest, summary, met, at, log, open, rests)
    requires open != [] && open[|open| - 1].after <= at
    ensures var entry := open[|open| - 1].entry;
            var log' := log[entry := log[entry].(inside := |log| - entry - 1)];
            && InStep(digest, summary, met, at, log', open[..|open| - 1], rests[..|open|])
            && Finish(digest, log', counts, open[..|open| - 1], rests[..|open|]) ==
               Finish(digest, log, counts, open, rests)
  {
    assert MetInAll(digest, rests[|open|]) == [];
    NothingMet(digest, rests[|open|], false, counts);
    assert log + [] == log;
    forall i | 0 <= i < |open| - 1
      ensures open[i].after == |met| - |Ahead(digest, rests[..|open|][..i + 1])|
    {
      PrefixOfPrefix(rests, |open|, i + 1);
    }
  }

  /** The next sibling that has an entry; the primitives before it have none. */
  lemma SkipPrimitives(digest: Value -> Digest, summary: Value, met: seq<Entry>, at: nat, log: seq<Entry>,
                       counts: Counts, open: seq<Open>, rests: seq<seq<Value>>) returns (rest: seq<Value>)
    requires InStep(digest, summary, met, at, log, open, rests)
    requires at < |met| && (open != [] ==> at < open[|open| - 1].after)
    ensures rest != [] && rest[0].Container?
    ensures var rests' := rests[..|open|] + [rest];
            && InStep(digest, summary, met, at, log, open, rests')
            && Finish(digest, log, counts, open, rests') == Finish(digest, log, counts, open, rests)
  {
    assert MetInAll(digest, rests[|open|]) != [] by {
      if open == [] { assert rests[..0] == []; }
    }
    rest := NextContainer(digest, rests[|open|], open == [], counts);
    var rests' := rests[..|open|] + [rest];
    assert rests'[..|open|] == rests[..|open|];
    forall i | 0 <= i < |open|
      ensures open[i].after == |met| - |Ahead(digest, rests'[..i + 1])|
    {
      assert rests'[..i + 1] == rests[..i + 1];
    }
    FinishUnfold(digest, log, counts, open, rests);
    FinishUnfold(digest, log, counts, open, rests');
  }

  lemma PrefixOfPrefix<T>(s: seq<T>, n: nat, k: nat)
    requires k <= n <= |s|
    ensures s[..n][..k] == s[..k]
  {
  }

  /** Levels below the innermost keep where they end. */
  lemma LevelsKept(digest: Value -> Digest, met: seq<Entry>, open: seq<Open>, rests: seq<seq<Value>>,
                   rests': seq<seq<Value>>)
    requires |rests| == |open| + 1 && |rests'| >= |open| && rests'[..|open|] == rests[..|open|]
    requires forall i :: 0 <= i < |open| ==> open[i].after == |met| - |Ahead(digest, rests[..i + 1])|
    ensures forall i :: 0 <= i < |open| ==> open[i].after == |met| - |Ahead(digest, rests'[..i + 1])|
  {
    forall i | 0 <= i < |open|
      ensures open[i].after == |met| - |Ahead(digest, rests'[..i + 1])|
    {
      PrefixOfPrefix(rests, |open|, i + 1);
      PrefixOfPrefix(rests', |open|, i + 1);
    }
  }

  /** The entry met next is the next container's. */
  lemma MetNext(digest: Value -> Digest, summary: Value, met: seq<Entry>, at: nat, log: seq<Entry>,
                open: seq<Open>, rests: seq<seq<Value>>)
    requires InStep(digest, summary, met, at, log, open, rests)
    requires rests[|open|] != [] && rests[|open|][0].Container?
    ensures at < |met| && met[at] == Met(digest, rests[|open|][0])[0]
    ensures at + 1 + met[at].inside <= |met|
    ensures met[at + 1 + met[at].inside..] == Ahead(digest, rests[..|open|] + [rests[|open|][1..]])
    ensures met[at + 1..] == Ahead(digest, rests[..|open|] + [rests[|open|][1..]] + [rests[|open|][0].items])
  {
    var below, rest := rests[..|open|], rests[|open|];
    assert rests == below + [rest];
    AheadHead(digest, below, rest);
    var ahead := met[at..];
    assert ahead[0] == met[at] && ahead[1..] == met[at + 1..];
    assert ahead[1 + met[at].inside..] == met[at + 1 + met[at].inside..];
  }

  /** A small or repeated container is one entry, and what is inside it is passed over. */
  lemma PassOver(digest: Value -> Digest, summary: Value, met: seq<Entry>, at: nat, log: seq<Entry>, log': seq<Entry>,
                 open: seq<Open>, rests: seq<seq<Value>>)
    requires InStep(digest, summary, met, at, log, open, rests) && |log| <= |log'|
    requires rests[|open|] != [] && rests[|open|][0].Container?
    requires at < |met| && met[at] == Met(digest, rests[|open|][0])[0]
    ensures InStep(digest, summary, met, at + 1 + met[at].inside, log', open, rests[..|open|] + [rests[|open|][1..]])
  {
    MetNext(digest, summary, met, at, log, open, rests);
    var rests' := rests[..|open|] + [rests[|open|][1..]];
    LevelsKept(digest, met, open, rests, rests');
  }

  /** A fresh container is one entry, left open while what is inside it is met. */
  lemma Enter(digest: Value -> Digest, summary: Value, met: seq<Entry>, at: nat, log: seq<Entry>, log': seq<Entry>,
              open: seq<Open>, rests: seq<seq<Value>>)
    requires InStep(digest, summary, met, at, log, open, rests) && |log'| == |log| + 1
    requires rests[|open|] != [] && rests[|open|][0].Container?
    requires at < |met| && met[at] == Met(digest, rests[|open|][0])[0]
    ensures InStep(digest, summary, met, at + 1, log', open + [Open(|log|, at + 1 + met[at].inside)],
                   rests[..|open|] + [rests[|open|][1..]] + [rests[|open|][0].items])
  {
    MetNext(digest, summary, met, at, log, open, rests);
    var outer := rests[..|open|] + [rests[|open|][1..]];
    var rests' := outer + [rests[|open|][0].items];
    LevelsKept(digest, met, open, rests, rests');
    assert rests'[..|open| + 1] == outer;
    assert |met[at + 1 + met[at].inside..]| == |Ahead(digest, outer)|;
  }

  /** The one entry of a small or repeated container. */
  lemma PassedOver(digest: Value -> Digest, v: Value, top: bool, counts: Counts)
    requires v.Container? && (!Shareable(v) || (!top && Count(counts, digest(v).key) > 0))
    ensures var (plan, after) := Survey(digest, v, top, counts);
            && Flat(digest, v, plan) ==
               [Entry(digest(v).key, digest(v).check, if Shareable(v) then Repeat else Small, 0)]
            && after == if Shareable(v) then counts[digest(v).key := Count(counts, digest(v).key) + 1] else counts
  {
  }

  /** A container that is small, or was met before: its one entry is logged, and the survey goes on after its inside. */
  lemma Passed(digest: Value -> Digest, summary: Value, met: seq<Entry>, at: nat, log: seq<Entry>, counts: Counts,
               open: seq<Open>, rests: seq<seq<Value>>, key: Key, small: bool, after: nat, entry: Entry)
    requires InStep(digest, summary, met, at, log, open, rests)
    requires rests[|open|] != [] && rests[|open|][0].Container? && at < |met|
    requires key == digest(rests[|open|][0]).key && small == !Shareable(rests[|open|][0])
    requires small || (at != 0 && Count(counts, key) > 0)
    requires after == at + 1 + met[at].inside
    requires entry == Entry(key, digest(rests[|open|][0]).check, if small then Small else Repeat, 0)
    ensures var counts' := if small then counts else counts[key := Count(counts, key) + 1];
            var rests' := rests[..|open|] + [rests[|open|][1..]];
            && InStep(digest, summary, met, after, log + [entry], open, rests')
            && Finish(digest, log + [entry], counts', open, rests') == Finish(digest, log, counts, open, rests)
  {
    assert (open == []) == (at == 0);
    MetNext(digest, summary, met, at, log, open, rests);
    FinishOneMore(digest, log, counts, open, rests);
    PassedOver(digest, rests[|open|][0], open == [], counts);
    PassOver(digest, summary, met, at, log, log + [entry], open, rests);
  }

  /** A container met first is logged and left open, and the survey goes on inside it. */
  lemma Entered(digest: Value -> Digest, summary: Value, met: seq<Entry>, at: nat, log: seq<Entry>, counts: Counts,
                open: seq<Open>, rests: seq<seq<Value>>, key: Key, after: nat, entry: Entry)
    requires InStep(digest, summary, met, at, log, open, rests)
    requires rests[|open|] != [] && rests[|open|][0].Container? && at < |met|
    requires key == digest(rests[|open|][0]).key && Shareable(rests[|open|][0])
    requires at == 0 || Count(counts, key) == 0
    requires after == at + 1 + met[at].inside
    requires entry == Entry(key, digest(rests[|open|][0]).check, First, 0)
    ensures var counts' := if at > 0 then counts[key := 1] else counts;
            var open' := open + [Open(|log|, after)];
            var rests' := rests[..|open|] + [rests[|open|][1..]] + [rests[|open|][0].items];
            && InStep(digest, summary, met, at + 1, log + [entry], open', rests')
            && Finish(digest, log + [entry], counts', open', rests') == Finish(digest, log, counts, open, rests)
  {
    assert (open == []) == (at == 0);
    MetNext(digest, summary, met, at, log, open, rests);
    FinishInside(digest, log, counts, open, rests, after);
    Enter(digest, summary, met, at, log, log + [entry], open, rests);
  }

  /** One entry of what was met: skipped past with its inside, or left open. */
  method SurveyEntry(digest: Value -> Digest, ghost summary: Value, met: seq<Entry>, at: nat,
                     log: seq<Entry>, counts: Counts, open: seq<Open>, ghost rests: seq<seq<Value>>)
    returns (at': nat, log': seq<Entry>, counts': Counts, open': seq<Open>, ghost rests': seq<seq<Value>>)
    requires InStep(digest, summary, met, at, log, open, rests)
    requires rests[|open|] != [] && rests[|open|][0].Container? && at < |met|
    ensures at < at' && InStep(digest, summary, met, at', log', open', rests')
    ensures Finish(digest, log', counts', open', rests') == Finish(digest, log, counts, open, rests)
  {
    MetNext(digest, summary, met, at, log, open, rests);
    ghost var v := rests[|open|][0];
    var key, check, small := met[at].key, met[at].check, met[at].kind == Small;
    assert key == digest(v).key && check == digest(v).check && small == !Shareable(v);
    var after := at + 1 + met[at].inside;
    var seen := if at == 0 then 0 else Count(counts, key);
    if small || seen > 0 {
      var entry := Entry(key, check, if small then Small else Repeat, 0);
      Passed(digest, summary, met, at, log, counts, open, rests, key, small, after, entry);
      log', counts' := log + [entry], if small then counts else counts[key := Count(counts, key) + 1];
      at', open', rests' := after, open, rests[..|open|] + [rests[|open|][1..]];
    } else {
      var entry := Entry(key, check, First, 0);
      Entered(digest, summary, met, at, log, counts, open, rests, key, after, entry);
      log', counts' := log + [entry], if at > 0 then counts[key := 1] else counts;
      at', open' := at + 1, open + [Open(|log|, after)];
      rests' := rests[..|open|] + [rests[|open|][1..]] + [v.items];
    }
  }

  method CloseAll(log0: seq<Entry>, open: seq<Open>) returns (log: seq<Entry>)
    requires forall i :: 0 <= i < |open| ==> open[i].entry < |log0|
    ensures log == ClosedAt(log0, open)
  {
    log := log0;
    for i := 0 to |open|
      invariant log == ClosedAt(log0, open[..i])
    {
      var entry := open[i].entry;
      log := log[entry := log[entry].(inside := |log| - entry - 1)];
      assert log == ClosedAt(log0, open[..i + 1]);
    }
    assert open[..|open|] == open;
  }

  /** One summary's entries compacted onto the log: what is met below a small or repeated value is skipped. */
  method SurveySummary(digest: Value -> Digest, ghost summary: Value, met: seq<Entry>,
                       log0: seq<Entry>, counts0: Counts) returns (log: seq<Entry>, counts: Counts)
    requires met == Met(digest, summary)
    ensures var (plan, after) := Survey(digest, summary, true, counts0);
            log == log0 + Flat(digest, summary, plan) && counts == after
  {
    log, counts := log0, counts0;
    var open: seq<Open> := [];
    var at := 0;
    ghost var rests := [[summary]];
    ghost var end := Finish(digest, log, counts, open, rests);
    Start(digest, summary, log, counts);
    while at < |met|
      invariant InStep(digest, summary, met, at, log, open, rests)
      invariant Finish(digest, log, counts, open, rests) == end
    {
      while |open| > 0 && open[|open| - 1].after <= at
        invariant InStep(digest, summary, met, at, log, open, rests)
        invariant Finish(digest, log, counts, open, rests) == end
        decreases |open|
      {
        Close(digest, summary, met, at, log, counts, open, rests);
        var entry := open[|open| - 1].entry;
        log := log[entry := log[entry].(inside := |log| - entry - 1)];
        rests := rests[..|open|];
        open := open[..|open| - 1];
      }
      ghost var rest := SkipPrimitives(digest, summary, met, at, log, counts, open, rests);
      rests := rests[..|open|] + [rest];
      at, log, counts, open, rests := SurveyEntry(digest, summary, met, at, log, counts, open, rests);
    }
    FinishNothingAhead(digest, log, counts, open, rests);
    log := CloseAll(log, open);
  }

  lemma FlatStep(digest: Value -> Digest, log: seq<Entry>, vs: seq<Value>, plans: seq<Plan>, i: nat)
    requires i < |vs| == |plans|
    ensures log + FlatAll(digest, vs[i..], plans[i..]) ==
            (log + Flat(digest, vs[i], plans[i])) + FlatAll(digest, vs[i + 1..], plans[i + 1..])
  {
    assert vs[i..][1..] == vs[i + 1..] && plans[i..][1..] == plans[i + 1..];
  }

  lemma SurveyAt(digest: Value -> Digest, vs: seq<Value>, plans: seq<Plan>, i: nat, counts: Counts, end: Counts)
    requires i < |vs| == |plans| && SurveyAll(digest, vs[i..], true, counts) == (plans[i..], end)
    ensures var (plan, between) := Survey(digest, vs[i], true, counts);
            plan == plans[i] && SurveyAll(digest, vs[i + 1..], true, between) == (plans[i + 1..], end)
  {
    SurveyStep(digest, vs[i..], true, counts);
    assert vs[i..][1..] == vs[i + 1..] && plans[i..][1..] == plans[i + 1..];
    var between := Survey(digest, vs[i], true, counts).1;
    var rest := SurveyAll(digest, vs[i + 1..], true, between).0;
    assert plans[i..][1..] == rest;
  }

  /** Surveys the summaries one after another; the log and counts are those of the recursive `SurveyAll`. */
  method Surveyed(digest: Value -> Digest, summaries: seq<Value>) returns (log: seq<Entry>, counts: Counts)
    requires AllWellFormed(summaries)
    ensures var (plans, after) := SurveyAll(digest, summaries, true, map[]);
            log == FlatAll(digest, summaries, plans) && counts == after
  {
    var hasher := new Hasher(digest);
    log, counts := [], map[];
    ghost var (plans, end) := SurveyAll(digest, summaries, true, map[]);
    ghost var all := FlatAll(digest, summaries, plans);
    for i := 0 to |summaries|
      invariant hasher.digest == digest
      invariant SurveyAll(digest, summaries[i..], true, counts) == (plans[i..], end)
      invariant log + FlatAll(digest, summaries[i..], plans[i..]) == all
    {
      hasher.Hash(summaries[i]);
      SurveyAt(digest, summaries, plans, i, counts, end);
      FlatStep(digest, log, summaries, plans, i);
      log, counts := SurveySummary(digest, summaries[i], hasher.log, log, counts);
    }
  }
}
