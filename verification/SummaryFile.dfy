/** A summaries file: the sharing writer's lines in the line layout, and its reader. */
module SummaryFile {
  import opened Json
  import opened JsonText
  import opened JsonParse
  import opened Utf8
  import opened SharedSurvey
  import opened SharedWriter
  import opened SharedReader
  import opened SharedRoundTrip
  import opened DocumentFile
  import opened DocumentReader
  import opened DocumentRoundTrip

  function SummaryFileText(digest: Value -> Digest, summaries: seq<Value>): string {
    if summaries == [] then "[]\n"
    else "[\n" + Joined(MinifiedAll(Shared(digest, summaries).0), ",\n") + "\n]\n"
  }

  lemma OneMoreLineJoined(lines: seq<string>, i: nat, separator: string)
    requires i < |lines| && separator == if i == 0 then "" else ",\n"
    ensures "[\n" + Joined(lines[..i], ",\n") + (separator + lines[i]) == "[\n" + Joined(lines[..i + 1], ",\n")
  {
    var sofar := Joined(lines[..i], ",\n");
    JoinedOneMore(lines[..i], lines[i], ",\n");
    assert lines[..i + 1] == lines[..i] + [lines[i]];
    assert "[\n" + sofar + (separator + lines[i]) == "[\n" + (sofar + separator + lines[i]);
  }

  method SummaryFilePieces(digest: Value -> Digest, summaries: seq<Value>) returns (pieces: seq<string>)
    requires AllWellFormed(summaries)
    ensures Concat(pieces) == SummaryFileText(digest, summaries)
  {
    if |summaries| == 0 {
      pieces := ["[]\n"];
      assert pieces[1..] == [];
      return;
    }
    var lines := SharedSummaryLines(digest, summaries);
    pieces := ["[\n"];
    assert Concat(pieces) == "[\n" by { assert pieces[1..] == []; }
    var separator := "";
    for i := 0 to |lines|
      invariant separator == if i == 0 then "" else ",\n"
      invariant Concat(pieces) == "[\n" + Joined(lines[..i], ",\n")
    {
      ConcatOneMore(pieces, separator + lines[i]);
      OneMoreLineJoined(lines, i, separator);
      pieces := pieces + [separator + lines[i]];
      separator := ",\n";
    }
    assert lines[..|lines|] == lines;
    ConcatOneMore(pieces, "\n]\n");
    pieces := pieces + ["\n]\n"];
  }

  datatype Issue = Issue(element: nat, what: string)

  /** The summaries, or what does not fit the summary schema, or what kept the file from being read. */
  datatype Summaries =
    | Summaries(values: seq<Value>)
    | NotSummaries(issues: seq<Issue>)
    | NotAList
    | Unreadable(error: Error)

  datatype Checked = Fits(data: Value) | Misfit(issues: seq<string>)

  /** What a reader does to each expanded element, and to the whole list when an element came without an id. */
  datatype Schema = Schema(normal: Value -> (Value, bool), check: Value -> Checked, settle: seq<Value> -> seq<Value>)

  /** How many issues are kept. */
  const ISSUES_KEPT := 50

  function Take<T>(s: seq<T>, n: nat): seq<T> {
    if n <= |s| then s[..n] else s
  }

  function Fitting(schema: Schema, values: seq<Value>): seq<Value> {
    if values == [] then [] else
      var front, last := values[..|values| - 1], schema.check(schema.normal(values[|values| - 1]).0);
      Fitting(schema, front) + if last.Fits? then [last.data] else []
  }

  function IssuesAt(element: nat, whats: seq<string>): seq<Issue> {
    if whats == [] then [] else [Issue(element, whats[0])] + IssuesAt(element, whats[1..])
  }

  function AllIssues(schema: Schema, values: seq<Value>): seq<Issue> {
    if values == [] then [] else
      var front, last := values[..|values| - 1], schema.check(schema.normal(values[|values| - 1]).0);
      AllIssues(schema, front) + if last.Fits? then [] else IssuesAt(|values| - 1, last.issues)
  }

  function AnyBackfilled(schema: Schema, values: seq<Value>): bool {
    exists v :: v in values && schema.normal(v).1
  }

  /** The elements expanded by one reader: all that fit, with their ids settled where one was filled in; or the first
      issues there are. */
  function Validated(schema: Schema, elements: seq<Value>): Summaries {
    var values := ExpandAll(elements, map[]).0;
    var issues, fitting := AllIssues(schema, values), Fitting(schema, values);
    if issues != [] then NotSummaries(Take(issues, ISSUES_KEPT))
    else Summaries(if AnyBackfilled(schema, values) then schema.settle(fitting) else fitting)
  }

  lemma TakeMore<T>(a: seq<T>, b: seq<T>, n: nat)
    ensures |Take(a, n)| <= n && Take(a + b, n) == Take(a, n) + Take(b, n - |Take(a, n)|)
  {
  }

  lemma OneMoreElement(schema: Schema, values: seq<Value>, i: nat)
    requires i < |values|
    ensures var checked := schema.check(schema.normal(values[i]).0);
            && Fitting(schema, values[..i + 1]) ==
               Fitting(schema, values[..i]) + (if checked.Fits? then [checked.data] else [])
            && AllIssues(schema, values[..i + 1]) ==
               AllIssues(schema, values[..i]) + (if checked.Fits? then [] else IssuesAt(i, checked.issues))
  {
    var more := values[..i + 1];
    assert more[..i] == values[..i] && more[i] == values[i];
  }

  lemma OneMoreBackfilled(schema: Schema, values: seq<Value>, i: nat)
    requires i < |values|
    ensures AnyBackfilled(schema, values[..i + 1]) <==>
            AnyBackfilled(schema, values[..i]) || schema.normal(values[i]).1
  {
    assert values[..i + 1] == values[..i] + [values[i]];
  }

  /** The next element's value, and those after it, from the reader's table. */
  lemma ExpandNext(elements: seq<Value>, all: seq<Value>, i: nat, defined: Defined, end: Defined)
    requires i < |elements| == |all| && ExpandAll(elements[i..], defined) == (all[i..], end)
    ensures var (value, after) := Expand(elements[i], defined);
            value == all[i] && ExpandAll(elements[i + 1..], after) == (all[i + 1..], end)
  {
    var rest, ahead := elements[i..], all[i..];
    assert rest[0] == elements[i] && rest[1..] == elements[i + 1..] && ahead[1..] == all[i + 1..];
    var others := ExpandAll(rest[1..], Expand(rest[0], defined).1).0;
    assert ahead == [Expand(rest[0], defined).0] + others && ahead[1..] == others;
  }

  /** What the reader holds after these elements. */
  ghost predicate Collected(schema: Schema, values: seq<Value>, summaries: seq<Value>, issues: seq<Issue>, any: bool) {
    && summaries == Fitting(schema, values)
    && issues == Take(AllIssues(schema, values), ISSUES_KEPT) && |issues| <= ISSUES_KEPT
    && (any <==> AnyBackfilled(schema, values))
  }

  lemma CollectedOneMore(schema: Schema, values: seq<Value>, i: nat, summaries: seq<Value>, issues: seq<Issue>,
                         any: bool)
    requires i < |values| && Collected(schema, values[..i], summaries, issues, any)
    ensures var (value, idBackfilled) := schema.normal(values[i]);
            match schema.check(value)
            case Fits(data) => Collected(schema, values[..i + 1], summaries + [data], issues, any || idBackfilled)
            case Misfit(whats) =>
              Collected(schema, values[..i + 1], summaries,
                        issues + Take(IssuesAt(i, whats), ISSUES_KEPT - |issues|), any || idBackfilled)
  {
    OneMoreElement(schema, values, i);
    OneMoreBackfilled(schema, values, i);
    var checked := schema.check(schema.normal(values[i]).0);
    if checked.Misfit? { TakeMore(AllIssues(schema, values[..i]), IssuesAt(i, checked.issues), ISSUES_KEPT); }
  }

  /** Reads each element with one reader for the file, and keeps what fits, or else the first issues. */
  method ValidatedElements(schema: Schema, elements: seq<Value>) returns (r: Summaries)
    ensures r == Validated(schema, elements)
  {
    var summaries: seq<Value>, issues: seq<Issue>, anyIdBackfilled := [], [], false;
    var shared := new SharedValueReader();
    ghost var (all, end) := ExpandAll(elements, map[]);
    assert elements[0..] == elements && all[0..] == all;
    for index := 0 to |elements|
      invariant ExpandAll(elements[index..], shared.defined) == (all[index..], end)
      invariant Collected(schema, all[..index], summaries, issues, anyIdBackfilled)
    {
      ExpandNext(elements, all, index, shared.defined, end);
      CollectedOneMore(schema, all, index, summaries, issues, anyIdBackfilled);
      var expanded := shared.ExpandNode(elements[index]);
      var (value, idBackfilled) := schema.normal(expanded);
      anyIdBackfilled := anyIdBackfilled || idBackfilled;
      var checked := schema.check(value);
      if checked.Fits? {
        summaries := summaries + [checked.data];
      } else {
        issues := issues + Take(IssuesAt(index, checked.issues), ISSUES_KEPT - |issues|);
      }
    }
    assert all[..|all|] == all;
    if |issues| > 0 {
      return NotSummaries(issues);
    }
    return Summaries(if anyIdBackfilled then schema.settle(summaries) else summaries);
  }

  // ------------------------------------------------------- the result, element by element

  /** What is wrong with an element, once it is normalised. */
  function WrongWith(schema: Schema, v: Value): seq<string> {
    match schema.check(schema.normal(v).0)
    case Fits(_) => []
    case Misfit(whats) => whats
  }

  /** How many issues these elements have. */
  function IssuesIn(schema: Schema, values: seq<Value>): nat {
    if values == [] then 0 else
      IssuesIn(schema, values[..|values| - 1]) + |WrongWith(schema, values[|values| - 1])|
  }

  lemma {:induction false} IssuesAtEach(element: nat, whats: seq<string>)
    ensures |IssuesAt(element, whats)| == |whats|
    ensures forall m :: 0 <= m < |whats| ==> IssuesAt(element, whats)[m] == Issue(element, whats[m])
  {
    if whats != [] { IssuesAtEach(element, whats[1..]); }
  }

  /** Each issue comes after those of the elements before its own. */
  lemma {:induction false} AllIssuesAt(schema: Schema, values: seq<Value>, i: nat, m: nat, at: nat)
    requires i < |values| && m < |WrongWith(schema, values[i])| && at == IssuesIn(schema, values[..i]) + m
    ensures at < |AllIssues(schema, values)| &&
            AllIssues(schema, values)[at] == Issue(i, WrongWith(schema, values[i])[m])
    decreases |values|
  {
    var n := |values| - 1;
    var front, last := values[..n], IssuesAt(n, WrongWith(schema, values[n]));
    if i < n {
      assert front[..i] == values[..i] && front[i] == values[i];
      AllIssuesAt(schema, front, i, m, at);
      InFirst(AllIssues(schema, front), last, at);
    } else {
      IssuesCounted(schema, front);
      IssuesAtEach(n, WrongWith(schema, values[n]));
      assert (AllIssues(schema, front) + last)[at] == last[m];
    }
    assert AllIssues(schema, values) == AllIssues(schema, front) + last by { IssuesAtEach(n, []); }
  }

  lemma InFirst<T>(a: seq<T>, b: seq<T>, at: nat)
    requires at < |a|
    ensures (a + b)[at] == a[at]
  {
  }

  lemma {:induction false} IssuesCounted(schema: Schema, values: seq<Value>)
    ensures |AllIssues(schema, values)| == IssuesIn(schema, values)
  {
    if values != [] {
      var n := |values| - 1;
      IssuesCounted(schema, values[..n]);
      IssuesAtEach(n, WrongWith(schema, values[n]));
    }
  }

  lemma {:induction false} FittingEach(schema: Schema, values: seq<Value>)
    requires forall i :: 0 <= i < |values| ==> schema.check(schema.normal(values[i]).0).Fits?
    ensures |Fitting(schema, values)| == |values|
    ensures forall i :: 0 <= i < |values| ==>
              Fitting(schema, values)[i] == schema.check(schema.normal(values[i]).0).data
  {
    if values != [] {
      var n := |values| - 1;
      assert forall i :: 0 <= i < n ==> values[..n][i] == values[i];
      FittingEach(schema, values[..n]);
    }
  }

  lemma {:induction false} NothingWrong(schema: Schema, values: seq<Value>)
    requires forall i :: 0 <= i < |values| ==> WrongWith(schema, values[i]) == []
    ensures IssuesIn(schema, values) == 0
  {
    if values != [] { NothingWrong(schema, values[..|values| - 1]); }
  }

  /** Where every element fits, the result is what each fits as, in order, settled when an id was filled in anywhere. */
  lemma FittingAreKept(schema: Schema, elements: seq<Value>) returns (kept: seq<Value>)
    requires forall v :: v in ExpandAll(elements, map[]).0 ==> schema.check(schema.normal(v).0).Fits?
    ensures var values := ExpandAll(elements, map[]).0;
            && |kept| == |values|
            && (forall i :: 0 <= i < |values| ==> kept[i] == schema.check(schema.normal(values[i]).0).data)
            && Validated(schema, elements) ==
               Summaries(if exists v :: v in values && schema.normal(v).1 then schema.settle(kept) else kept)
  {
    var values := ExpandAll(elements, map[]).0;
    assert forall i :: 0 <= i < |values| ==> values[i] in values;
    FittingEach(schema, values);
    NothingWrong(schema, values);
    IssuesCounted(schema, values);
    kept := Fitting(schema, values);
    assert AllIssues(schema, values) == [];
  }

  /** Where something is wrong, the result is the issues in order, each with the element it is about, the fifty-first
      and later left out. */
  lemma IssuesAreListed(schema: Schema, elements: seq<Value>, i: nat, m: nat)
    requires i < |elements| && m < |WrongWith(schema, ExpandAll(elements, map[]).0[i])|
    ensures var values := ExpandAll(elements, map[]).0;
            var r, at := Validated(schema, elements), IssuesIn(schema, values[..i]) + m;
            && at < IssuesIn(schema, values) && r.NotSummaries? &&
               |r.issues| == (if IssuesIn(schema, values) < 50 then IssuesIn(schema, values) else 50)
            && (at < 50 ==> r.issues[at] == Issue(i, WrongWith(schema, values[i])[m]))
  {
    var values := ExpandAll(elements, map[]).0;
    AllIssuesAt(schema, values, i, m, IssuesIn(schema, values[..i]) + m);
    IssuesCounted(schema, values);
  }

  /** What a summaries file's content reads as. */
  function ReadSummaries(schema: Schema, content: Bytes): Summaries {
    match ReadContent(content)
    case Err(e) => Unreadable(e)
    case Ok(Container(Unnamed, elements)) => Validated(schema, elements)
    case Ok(_) => NotAList
  }

  /** A file that is not JSON is refused with that error, whatever the elements before it say; so is a document that is
      no list; and of a list the elements decide. */
  lemma RefusedExactly(schema: Schema, content: Bytes, e: Error)
    ensures ReadSummaries(schema, content) == Unreadable(e) <==> ReadContent(content) == Err(e)
    ensures ReadSummaries(schema, content) == NotAList <==>
            ReadContent(content).Ok? && !(ReadContent(content).value.Container? &&
                                          ReadContent(content).value.names.Unnamed?)
    ensures ReadSummaries(schema, content).Summaries? || ReadSummaries(schema, content).NotSummaries? ==>
              && ReadContent(content).Ok? && ReadContent(content).value.Container?
              && ReadSummaries(schema, content) == Validated(schema, ReadContent(content).value.items)
  {
  }

  method ReadSummaryFile(schema: Schema, chunks: seq<Bytes>) returns (r: Summaries)
    requires forall i :: 0 <= i < |chunks| ==> chunks[i] != []
    ensures r == ReadSummaries(schema, Concat(chunks))
  {
    var document := ReadJsonFile(chunks);
    match document
    case Err(e) => return Unreadable(e);
    case Ok(Container(Unnamed, elements)) => r := ValidatedElements(schema, elements);
    case Ok(_) => return NotAList;
  }

  // ------------------------------------------------------------ end to end

  /** Sharing keeps a value a JSON value. */
  lemma {:induction false} TreeWellFormed(digest: Value -> Digest, v: Value, plan: Plan, top: bool, all: Counts,
                                          written: Written)
    requires WellFormed(v)
    ensures WellFormed(Share(digest, v, plan, top, all, written).0)
    decreases v, 1
  {
    if v.Container? && plan.Again? && digest(v).key in written {
      NatTextIsNumber(written[digest(v).key].id);
    }
    if v.Container? && plan.Fresh? {
      TreesWellFormed(digest, v.items, plan.below, false, all, written);
      var (items, inner) := ShareAll(digest, v.items, plan.below, false, all, written);
      NatTextIsNumber(|inner| + 1);
      DefinitionWellFormed(|inner| + 1, Container(v.names, items));
    }
  }

  lemma DefinitionWellFormed(id: nat, body: Value)
    requires WellFormed(body) && IsNumberText(NatText(id))
    ensures WellFormed(Definition(id, body))
  {
    assert "$def"[1] != "$value"[1];
  }

  lemma {:induction false} TreesWellFormed(digest: Value -> Digest, vs: seq<Value>, plans: seq<Plan>, top: bool,
                                           all: Counts, written: Written)
    requires AllWellFormed(vs)
    ensures AllWellFormed(ShareAll(digest, vs, plans, top, all, written).0)
    decreases vs, 0
  {
    if vs != [] {
      var plan, rest := if plans == [] then Nothing else plans[0], if plans == [] then [] else plans[1..];
      TreeWellFormed(digest, vs[0], plan, top, all, written);
      TreesWellFormed(digest, vs[1..], rest, top, all, Share(digest, vs[0], plan, top, all, written).1);
    }
  }

  lemma FileText(digest: Value -> Digest, summaries: seq<Value>)
    ensures SummaryFileText(digest, summaries) == DocumentText(Container(Unnamed, Shared(digest, summaries).0))
  {
    var trees := Shared(digest, summaries).0;
    if summaries == [] {
      assert trees == [] && "[" + "" + "]" == "[]" && "[]" + "\n" == "[]\n";
    } else {
      assert "," + "\n" == ",\n";
      assert ArrayText(MinifiedAll(trees), "\n") + "\n" == "[\n" + Joined(MinifiedAll(trees), ",\n") + "\n]\n";
    }
  }

  /** The element is of the current version and fits. */
  predicate Current(schema: Schema, value: Value) {
    schema.normal(value) == (value, false) && schema.check(value) == Fits(value)
  }

  lemma {:induction false} CurrentPass(schema: Schema, values: seq<Value>)
    requires forall i :: 0 <= i < |values| ==> Current(schema, values[i])
    ensures Fitting(schema, values) == values && AllIssues(schema, values) == [] && !AnyBackfilled(schema, values)
  {
    if values != [] {
      var front, last := values[..|values| - 1], values[|values| - 1];
      CurrentPass(schema, front);
      assert Current(schema, last) && values == front + [last];
    }
  }

  /** A schema that takes an element as it is or not at all. */
  ghost predicate ChangesNothing(schema: Schema) {
    forall v :: schema.normal(v) == (v, false) && (schema.check(v).Fits? ==> schema.check(v).data == v) &&
                (schema.check(v).Misfit? ==> schema.check(v).issues != [])
  }

  lemma {:induction false} NothingChanged(schema: Schema, values: seq<Value>)
    requires ChangesNothing(schema)
    ensures AllIssues(schema, values) == [] ==> Fitting(schema, values) == values
    ensures !AnyBackfilled(schema, values)
  {
    if values != [] {
      var front, last := values[..|values| - 1], values[|values| - 1];
      NothingChanged(schema, front);
      assert values == front + [last] && schema.normal(last) == (last, false);
      if schema.check(last).Misfit? {
        assert IssuesAt(|values| - 1, schema.check(last).issues) != [];
      }
    }
  }

  /** The file's bytes are read as its lines' trees, each expanded in turn. */
  lemma FileReads(digest: Value -> Digest, schema: Schema, summaries: seq<Value>)
    requires AllWellFormed(summaries)
    ensures ReadSummaries(schema, Encoded(SummaryFileText(digest, summaries))) ==
            Validated(schema, Shared(digest, summaries).0)
  {
    var (plans, counts) := SurveyAll(digest, summaries, true, map[]);
    TreesWellFormed(digest, summaries, plans, true, counts, map[]);
    var trees := Shared(digest, summaries).0;
    FileText(digest, summaries);
    var document := Container(Unnamed, trees);
    DocumentRoundTrips(document);
    if summaries == [] {
      assert Encoded("[]\n") == [0x5B, 0x5D, NEWLINE] by {
        assert "[]\n"[1..] == "]\n" && "]\n"[1..] == "\n" && "\n"[1..] == "";
      }
    }
  }

  /** End to end: summaries of the current version, written to a file, and the file read back however its bytes
      arrive, are the same summaries in the same order when no value met again holds a `__proto__` key; and only then,
      where the schema does not mend the loss. */
  lemma FileRoundTrip(digest: Value -> Digest, schema: Schema, summaries: seq<Value>)
    requires AllWellFormed(summaries) && (forall i :: 0 <= i < |summaries| ==> NoneReserved(summaries[i]))
    requires NoClash(digest, PartsOfAll(summaries))
    requires forall i :: 0 <= i < |summaries| ==> Current(schema, summaries[i])
    ensures NoProtoIn(AllMetAgain(digest, summaries, true, map[]).0) ==>
            ReadSummaries(schema, Encoded(SummaryFileText(digest, summaries))) == Summaries(summaries)
    ensures ChangesNothing(schema) ==>
            (ReadSummaries(schema, Encoded(SummaryFileText(digest, summaries))) == Summaries(summaries) <==>
             NoProtoIn(AllMetAgain(digest, summaries, true, map[]).0))
  {
    FileReads(digest, schema, summaries);
    RoundTripExactly(digest, summaries);
    CurrentPass(schema, summaries);
    if ChangesNothing(schema) {
      NothingChanged(schema, ExpandAll(Shared(digest, summaries).0, map[]).0);
    }
  }
}
