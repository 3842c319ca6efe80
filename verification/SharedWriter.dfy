/** Pass two of the sharing writer: the trees it writes, and the class that writes them with a cursor into the log. */
module SharedWriter {
  import opened Json
  import opened JsonText
  import opened SharedSurvey

  datatype Mark = Mark(id: nat, check: int)

  type Written = map<Key, Mark>

  function Numbered(id: nat): Value {
    Primitive(Number(NatText(id)))
  }

  function Reference(id: nat): Value {
    Container(Named(["$ref"]), [Numbered(id)])
  }

  function Definition(id: nat, body: Value): Value {
    Container(Named(["$def", "$value"]), [Numbered(id), body])
  }

  /** A plan has the shape of its value. */
  predicate Fits(v: Value, plan: Plan)
    decreases v, 1
  {
    match plan
    case Nothing => v.Primitive?
    case AsIs => v.Container?
    case Again => v.Container?
    case Fresh(below) => v.Container? && FitAll(v.items, below)
  }

  predicate FitAll(vs: seq<Value>, plans: seq<Plan>)
    decreases vs, 0
  {
    |vs| == |plans| && (vs != [] ==> Fits(vs[0], plans[0]) && FitAll(vs[1..], plans[1..]))
  }

  lemma {:induction false} SurveyFits(digest: Value -> Digest, v: Value, top: bool, counts: Counts)
    ensures Fits(v, Survey(digest, v, top, counts).0)
    decreases v, 1
  {
    if Shareable(v) {
      var key := digest(v).key;
      SurveyAllFits(digest, v.items, false, if top then counts else counts[key := 1]);
    }
  }

  lemma {:induction false} SurveyAllFits(digest: Value -> Digest, vs: seq<Value>, top: bool, counts: Counts)
    ensures FitAll(vs, SurveyAll(digest, vs, top, counts).0)
    decreases vs, 0
  {
    if vs != [] {
      SurveyStep(digest, vs, top, counts);
      var (plan, between) := Survey(digest, vs[0], top, counts);
      SurveyFits(digest, vs[0], top, counts);
      SurveyAllFits(digest, vs[1..], top, between);
      var rest := SurveyAll(digest, vs[1..], top, between).0;
      assert ([plan] + rest)[1..] == rest;
    }
  }

  /** The tree a value is written as, treated as planned, and the definitions after it. */
  function Share(digest: Value -> Digest, v: Value, plan: Plan, top: bool, counts: Counts, written: Written)
    : (Value, Written)
    decreases v, 1
  {
    if v.Primitive? then (v, written) else
      var Digest(key, check) := digest(v);
      match plan
      case Nothing => (v, written)
      case AsIs => (v, written)
      case Again =>
        // The check tells this value from the one defined under its key.
        if key in written && written[key].check == check then (Reference(written[key].id), written)
        else (v, written)
      case Fresh(below) =>
        var (items, inner) := ShareAll(digest, v.items, below, false, counts, written);
        var body := Container(v.names, items);
        if top || Count(counts, key) <= 1 then (body, inner)
        else (Definition(|inner| + 1, body), inner[key := Mark(|inner| + 1, check)])
  }

  function ShareAll(digest: Value -> Digest, vs: seq<Value>, plans: seq<Plan>, top: bool, counts: Counts,
                    written: Written)
    : (r: (seq<Value>, Written))
    ensures |r.0| == |vs|
    decreases vs, 0
  {
    if vs == [] then ([], written) else
      var (tree, between) := Share(digest, vs[0], if plans == [] then Nothing else plans[0], top, counts, written);
      var (trees, after) := ShareAll(digest, vs[1..], if plans == [] then [] else plans[1..], top, counts, between);
      ([tree] + trees, after)
  }

  predicate Repeating(entry: Entry, counts: Counts) {
    entry.kind == Repeat || (entry.kind == First && Count(counts, entry.key) > 1)
  }

  function RepeatsIn(entries: seq<Entry>, counts: Counts): nat {
    if entries == [] then 0 else
      RepeatsIn(entries[..|entries| - 1], counts) + if Repeating(entries[|entries| - 1], counts) then 1 else 0
  }

  lemma {:induction false} RepeatsInEach(entries: seq<Entry>, counts: Counts, from: nat)
    requires from <= |entries|
    ensures RepeatsIn(entries[..from], counts) <= RepeatsIn(entries, counts)
    ensures RepeatsIn(entries[..from], counts) == RepeatsIn(entries, counts) ==>
              forall i :: from <= i < |entries| ==> !Repeating(entries[i], counts)
  {
    if from == |entries| {
      assert entries[..from] == entries;
    } else {
      var front := entries[..|entries| - 1];
      RepeatsInEach(front, counts, from);
      assert front[..from] == entries[..from];
      assert forall i :: 0 <= i < |front| ==> front[i] == entries[i];
    }
  }

  /** A value with nothing repeating inside it is written as it is. */
  lemma {:induction false} NothingRepeats(digest: Value -> Digest, v: Value, plan: Plan, counts: Counts,
                                          written: Written)
    requires Fits(v, plan)
    requires forall i :: 0 <= i < |Flat(digest, v, plan)| ==> !Repeating(Flat(digest, v, plan)[i], counts)
    ensures Share(digest, v, plan, false, counts, written) == (v, written)
    decreases v, 1
  {
    if plan.Again? {
      assert Repeating(Flat(digest, v, plan)[0], counts);
    }
    if plan.Fresh? {
      var flat, below := Flat(digest, v, plan), FlatAll(digest, v.items, plan.below);
      assert flat[1..] == below && !Repeating(flat[0], counts);
      assert forall i :: 0 <= i < |below| ==> below[i] == flat[i + 1];
      NothingRepeatsInAll(digest, v.items, plan.below, counts, written);
    }
  }

  lemma {:induction false} NothingRepeatsInAll(digest: Value -> Digest, vs: seq<Value>, plans: seq<Plan>,
                                               counts: Counts, written: Written)
    requires FitAll(vs, plans)
    requires forall i :: 0 <= i < |FlatAll(digest, vs, plans)| ==> !Repeating(FlatAll(digest, vs, plans)[i], counts)
    ensures ShareAll(digest, vs, plans, false, counts, written) == (vs, written)
    decreases vs, 0
  {
    if vs != [] {
      var one, more := Flat(digest, vs[0], plans[0]), FlatAll(digest, vs[1..], plans[1..]);
      var flat := FlatAll(digest, vs, plans);
      assert flat == one + more;
      assert forall i :: 0 <= i < |one| ==> one[i] == flat[i];
      assert forall i :: 0 <= i < |more| ==> more[i] == flat[|one| + i];
      NothingRepeats(digest, vs[0], plans[0], counts, written);
      NothingRepeatsInAll(digest, vs[1..], plans[1..], counts, written);
      assert [vs[0]] + vs[1..] == vs;
    }
  }

  lemma OneFieldText(name: string, v: Value)
    ensures Minified(Container(Named([name]), [v])) == "{" + (Quoted(name) + ":" + Minified(v)) + "}"
  {
    var items, names, texts := [v], [name], [Minified(v)];
    assert items[1..] == [] && names[1..] == [] && texts[1..] == [];
    assert MinifiedAll(items) == texts;
    assert Labelled([], []) == [];
    assert Labelled(names, texts) == [Quoted(name) + ":" + Minified(v)];
    assert Minified(Container(Named(names), items)) == Wrapped(Named(names), texts);
  }

  lemma TwoFieldText(a: string, b: string, u: Value, v: Value)
    ensures Minified(Container(Named([a, b]), [u, v])) ==
            "{" + ((Quoted(a) + ":" + Minified(u)) + "," + (Quoted(b) + ":" + Minified(v))) + "}"
  {
    var names, items, texts := [a, b], [u, v], [Minified(u), Minified(v)];
    assert items[1..] == [v] && [v][1..] == [];
    assert MinifiedAll(items) == texts;
    assert names[1..] == [b] && texts[1..] == [Minified(v)];
    assert [b][1..] == [] && [Minified(v)][1..] == [];
    assert Labelled([], []) == [];
    var first, second := Quoted(a) + ":" + Minified(u), Quoted(b) + ":" + Minified(v);
    assert Labelled([b], [Minified(v)]) == [second];
    assert Labelled(names, texts) == [first] + [second];
    assert [first, second][1..] == [second];
    assert Joined([first, second], ",") == first + "," + second;
    assert Minified(Container(Named(names), items)) == Wrapped(Named(names), texts);
  }

  lemma QuotedPlain(name: string)
    requires forall i :: 0 <= i < |name| ==> Plain(name[i])
    ensures Quoted(name) == "\"" + name + "\""
  {
    PlainIsUnescaped(name);
  }

  function ReferenceLine(id: nat): string {
    "{\"$ref\":" + NatText(id) + "}"
  }

  function DefinitionLine(id: nat, text: string): string {
    "{\"$def\":" + NatText(id) + ",\"$value\":" + text + "}"
  }

  lemma ReferenceText(id: nat)
    ensures Minified(Reference(id)) == ReferenceLine(id)
  {
    OneFieldText("$ref", Numbered(id));
    QuotedPlain("$ref");
    assert Minified(Numbered(id)) == NatText(id);
  }

  lemma DefinitionText(id: nat, body: Value)
    ensures Minified(Definition(id, body)) == DefinitionLine(id, Minified(body))
  {
    TwoFieldText("$def", "$value", Numbered(id), body);
    QuotedPlain("$def");
    QuotedPlain("$value");
    DefinitionPieces(NatText(id), Minified(body));
  }

  lemma DefinitionPieces(number: string, text: string)
    ensures "{" + (("\"" + "$def" + "\"" + ":" + number) + "," + ("\"" + "$value" + "\"" + ":" + text)) + "}" ==
            "{\"$def\":" + number + ",\"$value\":" + text + "}"
  {
    assert "{" + ("\"" + "$def" + "\"" + ":") == "{\"$def\":";
    assert "," + ("\"" + "$value" + "\"" + ":") == ",\"$value\":";
  }

  /** The log from `next` on starts with these entries. */
  ghost predicate EntriesAt(log: seq<Entry>, next: nat, flat: seq<Entry>) {
    next + |flat| <= |log| && log[next..next + |flat|] == flat
  }

  lemma EntriesInTurn(log: seq<Entry>, next: nat, one: seq<Entry>, more: seq<Entry>)
    requires EntriesAt(log, next, one + more)
    ensures EntriesAt(log, next, one) && EntriesAt(log, next + |one|, more)
  {
    var both := log[next..next + |one + more|];
    assert both[..|one|] == one && both[|one|..] == more;
  }

  /** A value is written as `tree`, from one state of the writer to the next. */
  ghost predicate WrittenAs(digest: Value -> Digest, v: Value, plan: Plan, top: bool, log: seq<Entry>, counts: Counts,
                            next: nat, written: Written, tree: Value, next': nat, written': Written) {
    && Fits(v, plan) && EntriesAt(log, next, Flat(digest, v, plan)) && next' == next + |Flat(digest, v, plan)|
    && Share(digest, v, plan, top, counts, written) == (tree, written')
  }

  /** The writer's states between the values of a list. */
  lemma {:induction false} Course(digest: Value -> Digest, vs: seq<Value>, plans: seq<Plan>, top: bool, log: seq<Entry>,
                                  counts: Counts, next: nat, written: Written)
    returns (nexts: seq<nat>, writtens: seq<Written>)
    requires FitAll(vs, plans) && EntriesAt(log, next, FlatAll(digest, vs, plans))
    ensures |nexts| == |writtens| == |vs| + 1 && nexts[0] == next && writtens[0] == written
    ensures nexts[|vs|] == next + |FlatAll(digest, vs, plans)|
    ensures writtens[|vs|] == ShareAll(digest, vs, plans, top, counts, written).1
    ensures var trees := ShareAll(digest, vs, plans, top, counts, written).0;
            forall i :: 0 <= i < |vs| ==>
              WrittenAs(digest, vs[i], plans[i], top, log, counts, nexts[i], writtens[i], trees[i], nexts[i + 1],
                        writtens[i + 1])
  {
    if vs == [] {
      nexts, writtens := [next], [written];
    } else {
      var one, more := Flat(digest, vs[0], plans[0]), FlatAll(digest, vs[1..], plans[1..]);
      EntriesInTurn(log, next, one, more);
      var (tree, between) := Share(digest, vs[0], plans[0], top, counts, written);
      var nexts', writtens' := Course(digest, vs[1..], plans[1..], top, log, counts, next + |one|, between);
      nexts, writtens := [next] + nexts', [written] + writtens';
    }
  }

  /** What a container met first becomes, once its items are shared: a definition, if it is met again. */
  function Finished(v: Value, d: Digest, shared: bool, items: seq<Value>, inner: Written): (Value, Written)
    requires v.Container?
  {
    var body := Container(v.names, items);
    if shared then (Definition(|inner| + 1, body), inner[d.key := Mark(|inner| + 1, d.check)]) else (body, inner)
  }

  lemma FreshShared(digest: Value -> Digest, v: Value, below: seq<Plan>, top: bool, counts: Counts, written: Written)
    requires v.Container?
    ensures var (items, inner) := ShareAll(digest, v.items, below, false, counts, written);
            Share(digest, v, Fresh(below), top, counts, written) ==
            Finished(v, digest(v), !top && Count(counts, digest(v).key) > 1, items, inner)
  {
  }

  /** When no entry inside a value repeats, the value is written as it is. */
  lemma NothingInside(digest: Value -> Digest, v: Value, below: seq<Plan>, log: seq<Entry>, counts: Counts,
                      entry: nat, written: Written)
    requires v.Container? && FitAll(v.items, below)
    requires entry < |log| && EntriesAt(log, entry + 1, FlatAll(digest, v.items, below))
    requires RepeatsIn(log[..entry + 1 + |FlatAll(digest, v.items, below)|], counts) ==
             RepeatsIn(log[..entry + 1], counts)
    ensures ShareAll(digest, v.items, below, false, counts, written) == (v.items, written)
  {
    var inside := FlatAll(digest, v.items, below);
    var upto := log[..entry + 1 + |inside|];
    assert upto[..entry + 1] == log[..entry + 1];
    RepeatsInEach(upto, counts, entry + 1);
    forall i | 0 <= i < |inside|
      ensures !Repeating(inside[i], counts)
    {
      assert inside[i] == log[entry + 1..entry + 1 + |inside|][i] == upto[entry + 1 + i];
    }
    NothingRepeatsInAll(digest, v.items, below, counts, written);
  }

  /** A fresh container's entry, and those inside it. */
  lemma FreshEntries(digest: Value -> Digest, v: Value, plan: Plan, log: seq<Entry>, entry: nat)
    requires Fits(v, plan) && v.Container? && EntriesAt(log, entry, Flat(digest, v, plan))
    ensures entry < |log| && log[entry] == Flat(digest, v, plan)[0]
    ensures plan.Fresh? ==>
              && log[entry].inside == |FlatAll(digest, v.items, plan.below)|
              && EntriesAt(log, entry + 1, FlatAll(digest, v.items, plan.below))
              && |Flat(digest, v, plan)| == 1 + log[entry].inside
  {
    var flat := Flat(digest, v, plan);
    assert log[entry] == log[entry..entry + |flat|][0];
    if plan.Fresh? {
      assert log[entry + 1..entry + |flat|] == log[entry..entry + |flat|][1..] == flat[1..];
    }
  }

  /** What the writer's closures share: the survey, the definitions written so far, and the next entry. */
  class Writer {
    const log: seq<Entry>
    const counts: Counts
    const repeatsBefore: seq<nat>
    var written: Written
    var next: nat

    ghost predicate Valid() {
      && |repeatsBefore| == |log| + 1
      && forall entry :: 0 <= entry <= |log| ==> repeatsBefore[entry] == RepeatsIn(log[..entry], counts)
    }

    constructor (log: seq<Entry>, counts: Counts, repeatsBefore: seq<nat>)
      ensures this.log == log && this.counts == counts && this.repeatsBefore == repeatsBefore
      ensures written == map[] && next == 0
    {
      this.log, this.counts, this.repeatsBefore := log, counts, repeatsBefore;
      written, next := map[], 0;
    }

    method Write(ghost digest: Value -> Digest, node: Value, top: bool, ghost plan: Plan) returns (text: string)
      requires Valid() && Fits(node, plan) && EntriesAt(log, next, Flat(digest, node, plan))
      modifies this
      ensures text == Minified(Share(digest, node, plan, top, counts, old(written)).0)
      ensures written == Share(digest, node, plan, top, counts, old(written)).1
      ensures next == old(next) + |Flat(digest, node, plan)|
      ensures node.Container? ==> next == old(next) + 1 + log[old(next)].inside
      decreases node, 3
    {
      if node.Primitive? {
        return AtomText(node.atom);
      }
      FreshEntries(digest, node, plan, log, next);
      var entry := next;
      next := next + 1;
      var Entry(key, check, kind, _) := log[entry];
      if kind == Small {
        return Minified(node);
      }
      if kind == Repeat {
        if key in written && written[key].check == check {
          ReferenceText(written[key].id);
          return ReferenceLine(written[key].id);
        }
        return Minified(node);
      }
      text := WriteFirst(digest, node, top, plan.below, entry);
    }

    /** A container met for the first time, its own entry passed. */
    method WriteFirst(ghost digest: Value -> Digest, node: Value, top: bool, ghost below: seq<Plan>, entry: nat)
      returns (text: string)
      requires Valid() && node.Container? && FitAll(node.items, below) && entry < |log| && next == entry + 1
      requires log[entry] == Entry(digest(node).key, digest(node).check, First, |FlatAll(digest, node.items, below)|)
      requires EntriesAt(log, next, FlatAll(digest, node.items, below))
      modifies this
      ensures text == Minified(Share(digest, node, Fresh(below), top, counts, old(written)).0)
      ensures written == Share(digest, node, Fresh(below), top, counts, old(written)).1
      ensures next == entry + 1 + log[entry].inside
      decreases node, 2
    {
      var shared := !top && Repeating(log[entry], counts);
      FreshShared(digest, node, below, top, counts, written);
      ghost var (items, inner) := ShareAll(digest, node.items, below, false, counts, written);
      if shared {
        DefinitionText(|inner| + 1, Container(node.names, items));
        text := WriteDefinition(digest, node, below, log[entry].key, log[entry].check, items, inner);
      } else {
        text := WritePlain(digest, node, below, entry, items, inner);
      }
    }

    /** A container that is met again: its items, and the definition around them. */
    method WriteDefinition(ghost digest: Value -> Digest, node: Value, ghost below: seq<Plan>, key: Key, check: Key,
                           ghost items: seq<Value>, ghost inner: Written)
      returns (text: string)
      requires Valid() && node.Container? && FitAll(node.items, below)
      requires EntriesAt(log, next, FlatAll(digest, node.items, below))
      requires (items, inner) == ShareAll(digest, node.items, below, false, counts, written)
      modifies this
      ensures text == DefinitionLine(|inner| + 1, Minified(Container(node.names, items)))
      ensures written == inner[key := Mark(|inner| + 1, check)]
      ensures next == old(next) + |FlatAll(digest, node.items, below)|
      decreases node, 1
    {
      text := Inside(digest, node, below, items, inner);
      text := Define(key, check, text);
    }

    /** A container that is not, in one piece when nothing in it is met again either. */
    method WritePlain(ghost digest: Value -> Digest, node: Value, ghost below: seq<Plan>, entry: nat,
                      ghost items: seq<Value>, ghost inner: Written)
      returns (text: string)
      requires Valid() && node.Container? && FitAll(node.items, below) && entry < |log| && next == entry + 1
      requires log[entry].inside == |FlatAll(digest, node.items, below)|
      requires EntriesAt(log, next, FlatAll(digest, node.items, below))
      requires (items, inner) == ShareAll(digest, node.items, below, false, counts, written)
      modifies this
      ensures text == Minified(Container(node.names, items)) && written == inner
      ensures next == entry + 1 + log[entry].inside
      decreases node, 1
    {
      var last := entry + log[entry].inside;
      if repeatsBefore[last + 1] == repeatsBefore[entry + 1] {
        NothingHere(digest, node, below, entry);
        next := last + 1;
        return Minified(node);
      }
      text := Inside(digest, node, below, items, inner);
    }

    lemma NothingHere(digest: Value -> Digest, node: Value, below: seq<Plan>, entry: nat)
      requires Valid() && node.Container? && FitAll(node.items, below) && entry < |log|
      requires EntriesAt(log, entry + 1, FlatAll(digest, node.items, below))
      requires log[entry].inside == |FlatAll(digest, node.items, below)|
      requires repeatsBefore[entry + log[entry].inside + 1] == repeatsBefore[entry + 1]
      ensures ShareAll(digest, node.items, below, false, counts, written) == (node.items, written)
      ensures Container(node.names, node.items) == node
    {
      NothingInside(digest, node, below, log, counts, entry, written);
    }

    /** Records the definition of a value that is met again, and gives its line. */
    method Define(key: Key, check: Key, text: string) returns (line: string)
      modifies this`written
      ensures line == DefinitionLine(|old(written)| + 1, text)
      ensures written == old(written)[key := Mark(|old(written)| + 1, check)]
    {
      var id := |written| + 1;
      written := written[key := Mark(id, check)];
      line := DefinitionLine(id, text);
    }

    method Inside(ghost digest: Value -> Digest, node: Value, ghost below: seq<Plan>,
                  ghost items: seq<Value>, ghost inner: Written)
      returns (text: string)
      requires node.Container? && Valid() && FitAll(node.items, below)
      requires EntriesAt(log, next, FlatAll(digest, node.items, below))
      requires (items, inner) == ShareAll(digest, node.items, below, false, counts, written)
      modifies this
      ensures text == Minified(Container(node.names, items)) && written == inner
      ensures next == old(next) + |FlatAll(digest, node.items, below)|
      decreases node, 0
    {
      var texts := WriteAll(digest, node.items, false, below);
      text := Wrapped(node.names, texts);
    }

    /** One value of a list, from where the one before it left off to where the next begins. */
    method WriteOne(ghost digest: Value -> Digest, node: Value, top: bool, ghost plan: Plan,
                    ghost tree: Value, ghost next': nat, ghost written': Written) returns (text: string)
      requires Valid() && WrittenAs(digest, node, plan, top, log, counts, next, written, tree, next', written')
      modifies this
      ensures text == Minified(tree) && next == next' && written == written'
      decreases node, 4
    {
      text := Write(digest, node, top, plan);
    }

    /** Values written one after another. */
    method WriteAll(ghost digest: Value -> Digest, vs: seq<Value>, top: bool, ghost plans: seq<Plan>)
      returns (texts: seq<string>)
      requires Valid() && FitAll(vs, plans) && EntriesAt(log, next, FlatAll(digest, vs, plans))
      modifies this
      ensures texts == MinifiedAll(ShareAll(digest, vs, plans, top, counts, old(written)).0)
      ensures written == ShareAll(digest, vs, plans, top, counts, old(written)).1
      ensures next == old(next) + |FlatAll(digest, vs, plans)|
      decreases vs, 4
    {
      texts := [];
      ghost var trees := ShareAll(digest, vs, plans, top, counts, written).0;
      ghost var printed := MinifiedAll(trees);
      MinifiedEach(trees);
      ghost var nexts, writtens := Course(digest, vs, plans, top, log, counts, next, written);
      for i := 0 to |vs|
        invariant next == nexts[i] && written == writtens[i]
        invariant texts == printed[..i]
      {
        var text := WriteOne(digest, vs[i], top, plans[i], trees[i], nexts[i + 1], writtens[i + 1]);
        NextPrinted(printed, i, text);
        texts := texts + [text];
      }
      assert printed[..|vs|] == printed;
    }
  }

  lemma NextPrinted(printed: seq<string>, i: nat, text: string)
    requires i < |printed| && text == printed[i]
    ensures printed[..i] + [text] == printed[..i + 1]
  {
  }

  method PrefixRepeats(log: seq<Entry>, counts: Counts) returns (before: seq<nat>)
    ensures |before| == |log| + 1
    ensures forall entry :: 0 <= entry <= |log| ==> before[entry] == RepeatsIn(log[..entry], counts)
  {
    before := [0];
    for entry := 0 to |log|
      invariant |before| == entry + 1
      invariant forall e :: 0 <= e <= entry ==> before[e] == RepeatsIn(log[..e], counts)
    {
      assert log[..entry + 1][..entry] == log[..entry];
      before := before + [before[entry] + if Repeating(log[entry], counts) then 1 else 0];
    }
  }

  /** The trees every summary is written as, and the definitions written. */
  function Shared(digest: Value -> Digest, summaries: seq<Value>): (r: (seq<Value>, Written))
    ensures |r.0| == |summaries|
  {
    var (plans, counts) := SurveyAll(digest, summaries, true, map[]);
    ShareAll(digest, summaries, plans, true, counts, map[])
  }

  /** Each summary's line; the cursor ends at the end of the log. */
  method SharedSummaryLines(digest: Value -> Digest, summaries: seq<Value>) returns (lines: seq<string>)
    requires AllWellFormed(summaries)
    ensures lines == MinifiedAll(Shared(digest, summaries).0)
  {
    var log, counts := Surveyed(digest, summaries);
    var repeatsBefore := PrefixRepeats(log, counts);
    var writer := new Writer(log, counts, repeatsBefore);
    ghost var plans := SurveyAll(digest, summaries, true, map[]).0;
    SurveyAllFits(digest, summaries, true, map[]);
    assert log[0..|log|] == log;
    lines := writer.WriteAll(digest, summaries, true, plans);
    assert writer.next == |log|;
  }
}
