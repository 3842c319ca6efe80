/** The size the sharing writer goes by, measured on the printed text, and what is shared by it. */
module PrintedSize {
  import opened Json
  import opened Sequences
  import opened JsonText
  import opened SharedSurvey
  import opened SharedWriter
  import opened SharedReader
  import opened SharedRoundTrip
  import opened SharedExact

  /** The text with an `x` for each character that printing escapes. */
  function Unescaped(s: string): (r: string)
    ensures |r| == |s| && forall i :: 0 <= i < |r| ==> Plain(r[i])
  {
    if s == "" then "" else [if Plain(s[0]) then s[0] else 'x'] + Unescaped(s[1..])
  }

  function UnescapedAll(names: seq<string>): (r: seq<string>)
    ensures |r| == |names| && forall i :: 0 <= i < |r| ==> r[i] == Unescaped(names[i])
  {
    if names == [] then [] else [Unescaped(names[0])] + UnescapedAll(names[1..])
  }

  /** The value with nothing to escape in it, and `false` for each number, truth and null. */
  function Blurred(v: Value): Value
    decreases v, 1
  {
    match v
    case Primitive(Text(s)) => Primitive(Text(Unescaped(s)))
    case Primitive(_) => Primitive(Bool(false))
    case Container(Unnamed, items) => Container(Unnamed, BlurredAll(items))
    case Container(Named(names), items) => Container(Named(UnescapedAll(names)), BlurredAll(items))
  }

  function BlurredAll(vs: seq<Value>): (r: seq<Value>)
    ensures |r| == |vs| && forall i :: 0 <= i < |r| ==> r[i] == Blurred(vs[i])
    decreases vs, 0
  {
    if vs == [] then [] else [Blurred(vs[0])] + BlurredAll(vs[1..])
  }

  /** How many containers in the value, itself included, have something in them. */
  function NotEmpty(v: Value): nat
    decreases v, 1
  {
    if v.Primitive? then 0 else (if v.items == [] then 0 else 1) + NotEmptyAll(v.items)
  }

  function NotEmptyAll(vs: seq<Value>): nat
    decreases vs, 0
  {
    if vs == [] then 0 else NotEmpty(vs[0]) + NotEmptyAll(vs[1..])
  }

  /** An object or array that prints, blurred, to 32 characters or more, each that is not empty counting one more. */
  predicate IsLong(v: Value) {
    v.Container? && |Minified(Blurred(v))| + NotEmpty(v) >= 32
  }

  function TotalLength(texts: seq<string>): nat {
    if texts == [] then 0 else |texts[0]| + TotalLength(texts[1..])
  }

  lemma {:induction false} JoinedLength(texts: seq<string>)
    ensures |Joined(texts, ",")| == TotalLength(texts) + if texts == [] then 0 else |texts| - 1
  {
    if |texts| == 1 {
      assert texts[1..] == [];
    } else if texts != [] {
      JoinedLength(texts[1..]);
    }
  }

  lemma {:induction false} NamesSizeFirst(names: seq<string>)
    requires names != []
    ensures NamesSize(names) == |names[0]| + 3 + NamesSize(names[1..])
  {
    var n := |names| - 1;
    if n > 0 {
      NamesSizeFirst(names[..n]);
      assert names[1..][..n - 1] == names[..n][1..] && names[1..][n - 1] == names[n];
    }
  }

  lemma {:induction false} LabelledLength(names: seq<string>, texts: seq<string>)
    requires |names| == |texts|
    ensures |Labelled(UnescapedAll(names), texts)| == |names|
    ensures TotalLength(Labelled(UnescapedAll(names), texts)) == TotalLength(texts) + NamesSize(names)
  {
    if names != [] {
      LabelledLength(names[1..], texts[1..]);
      NamesSizeFirst(names);
      PlainIsUnescaped(Unescaped(names[0]));
      var field := Quoted(Unescaped(names[0])) + ":" + texts[0];
      assert |field| == |names[0]| + 3 + |texts[0]|;
      var rest := Labelled(UnescapedAll(names[1..]), texts[1..]);
      assert UnescapedAll(names)[1..] == UnescapedAll(names[1..]);
      assert Labelled(UnescapedAll(names), texts) == [field] + rest;
      assert ([field] + rest)[1..] == rest;
    }
  }

  /** Size is the length of the blurred text, and one for each object or array that is not empty. */
  lemma {:induction false} SizeIsPrinted(v: Value)
    requires WellFormed(v)
    ensures Size(v) == |Minified(Blurred(v))| + NotEmpty(v)
    decreases v, 1
  {
    match v {
      case Primitive(Text(s)) => PlainIsUnescaped(Unescaped(s));
      case Primitive(_) =>
      case Container(names, items) =>
        SizesArePrinted(items);
        var texts := MinifiedAll(BlurredAll(items));
        if names.Named? {
          LabelledLength(names.names, texts);
          JoinedLength(Labelled(UnescapedAll(names.names), texts));
        } else {
          JoinedLength(texts);
        }
    }
  }

  lemma {:induction false} SizesArePrinted(vs: seq<Value>)
    requires AllWellFormed(vs)
    ensures SizeOfAll(vs) == TotalLength(MinifiedAll(BlurredAll(vs))) + NotEmptyAll(vs) + |vs|
    decreases vs, 0
  {
    if vs != [] {
      SizeIsPrinted(vs[0]);
      SizesArePrinted(vs[1..]);
      assert BlurredAll(vs)[1..] == BlurredAll(vs[1..]);
      assert MinifiedAll(BlurredAll(vs))[1..] == MinifiedAll(BlurredAll(vs[1..]));
    }
  }

  /** What is long enough to share, by the text it prints to. */
  lemma ShareableIsLong(v: Value)
    requires WellFormed(v)
    ensures Shareable(v) <==> IsLong(v)
  {
    SizeIsPrinted(v);
  }

  // ------------------------------------------------------------ nothing short is shared

  /** A value is written as it is, or as a reference or a definition if it is long, and so is everything in it. */
  predicate WrittenOut(v: Value, tree: Value)
    decreases v, 1
  {
    if v.Primitive? then tree == v
    else
      || (IsLong(v) && IsReference(tree))
      || (IsLong(v) && IsDefinition(tree) && WrittenBody(v, tree.items[ValueAt(tree.names)]))
      || WrittenBody(v, tree)
  }

  /** The same keys, and each item written out. */
  predicate WrittenBody(v: Value, tree: Value)
    requires v.Container?
    decreases v, 0
  {
    && tree.Container? && tree.names == v.names && |tree.items| == |v.items|
    && forall i :: 0 <= i < |v.items| ==> WrittenOut(v.items[i], tree.items[i])
  }

  lemma {:induction false} AsItIs(v: Value)
    ensures WrittenOut(v, v)
    decreases v
  {
    if v.Container? {
      forall i | 0 <= i < |v.items|
        ensures WrittenOut(v.items[i], v.items[i])
      {
        AsItIs(v.items[i]);
      }
    }
  }

  lemma {:induction false} OnlyLong(digest: Value -> Digest, all: Counts, v: Value, top: bool, counts: Counts,
                                    written: Written)
    requires WellFormed(v)
    ensures WrittenOut(v, TreeOf(digest, all, v, top, counts, written))
    ensures v.Container? && top ==> WrittenBody(v, TreeOf(digest, all, v, top, counts, written))
    decreases v, 1
  {
    AsItIs(v);
    ShareableIsLong(v);
    if Shareable(v) {
      var key := digest(v).key;
      if top || Count(counts, key) == 0 {
        var first := if top then counts else counts[key := 1];
        var trees := TreesOf(digest, all, v.items, false, first, written);
        AllOnlyLong(digest, all, v.items, false, first, written);
        FreshShared(digest, v, SurveyAll(digest, v.items, false, first).0, top, all, written);
        var inner := ShareAll(digest, v.items, SurveyAll(digest, v.items, false, first).0, false, all, written).1;
        var body := Container(v.names, trees);
        assert WrittenBody(v, body);
        DefinitionShape(|inner| + 1, body);
      } else if key in written {
        assert IsReference(Reference(written[key].id));
      }
    }
  }

  lemma DefinitionShape(id: nat, body: Value)
    ensures IsDefinition(Definition(id, body)) &&
            Definition(id, body).items[ValueAt(Definition(id, body).names)] == body
  {
    assert Definition(id, body).names.names[0] == "$def";
  }

  lemma {:induction false} AllOnlyLong(digest: Value -> Digest, all: Counts, vs: seq<Value>, top: bool, counts: Counts,
                                       written: Written)
    requires AllWellFormed(vs)
    ensures var trees := TreesOf(digest, all, vs, top, counts, written);
            forall i :: 0 <= i < |vs| ==>
              WrittenOut(vs[i], trees[i]) && (vs[i].Container? && top ==> WrittenBody(vs[i], trees[i]))
    decreases vs, 0
  {
    if vs != [] {
      SurveyStep(digest, vs, top, counts);
      var (plan, between) := Survey(digest, vs[0], top, counts);
      var rest := SurveyAll(digest, vs[1..], top, between).0;
      assert ([plan] + rest)[1..] == rest;
      OnlyLong(digest, all, vs[0], top, counts, written);
      AllOnlyLong(digest, all, vs[1..], top, between, Share(digest, vs[0], plan, top, all, written).1);
    }
  }

  /** Whatever the digests, every summary is written out, and nothing in it that prints to less than 32 characters is
      written as a definition or a reference. */
  lemma ShortIsNeverShared(digest: Value -> Digest, summaries: seq<Value>, i: nat)
    requires AllWellFormed(summaries) && i < |summaries|
    ensures WrittenOut(summaries[i], Shared(digest, summaries).0[i])
    ensures summaries[i].Container? ==> WrittenBody(summaries[i], Shared(digest, summaries).0[i])
  {
    AllOnlyLong(digest, SurveyAll(digest, summaries, true, map[]).1, summaries, true, map[], map[]);
  }

  // ------------------------------------------------------------- all that is long is shared

  /** The long values a tree writes in full, whole summaries aside. */
  function LongInFull(v: Value, tree: Value, top: bool): seq<Value>
    decreases v, 1
  {
    if v.Primitive? || IsReference(tree) then [] else
      var body := if IsDefinition(tree) then tree.items[ValueAt(tree.names)] else tree;
      (if IsLong(v) && !top then [v] else []) +
        AllLongInFull(v.items, if body.Container? then body.items else [], false)
  }

  function AllLongInFull(vs: seq<Value>, trees: seq<Value>, top: bool): seq<Value>
    decreases vs, 0
  {
    if vs == [] || trees == [] then [] else
      LongInFull(vs[0], trees[0], top) + AllLongInFull(vs[1..], trees[1..], top)
  }

  lemma {:induction false} InFullIsLong(v: Value, tree: Value, top: bool)
    requires WellFormed(v)
    ensures InFull(v, tree, top) == LongInFull(v, tree, top)
    decreases v, 1
  {
    ShareableIsLong(v);
    if v.Container? && !IsReference(tree) {
      var body := if IsDefinition(tree) then tree.items[ValueAt(tree.names)] else tree;
      AllInFullAreLong(v.items, if body.Container? then body.items else [], false);
    }
  }

  lemma {:induction false} AllInFullAreLong(vs: seq<Value>, trees: seq<Value>, top: bool)
    requires AllWellFormed(vs)
    ensures AllInFull(vs, trees, top) == AllLongInFull(vs, trees, top)
    decreases vs, 0
  {
    if vs != [] && trees != [] {
      InFullIsLong(vs[0], trees[0], top);
      AllInFullAreLong(vs[1..], trees[1..], top);
    }
  }

  /** With no key collision nothing that prints to 32 characters or more is written in full twice: met again it is a
      reference, and each definition is referred to. */
  lemma LongIsSharedOnce(digest: Value -> Digest, summaries: seq<Value>)
    requires AllWellFormed(summaries) && (forall i :: 0 <= i < |summaries| ==> NoneReserved(summaries[i]))
    requires KeysApart(digest, PartsOfAll(summaries))
    ensures Distinct(AllLongInFull(summaries, Shared(digest, summaries).0, true))
    ensures AllReferredTo(EventsOfAll(Shared(digest, summaries).0))
  {
    SharedOnce(digest, summaries);
    AllInFullAreLong(summaries, Shared(digest, summaries).0, true);
  }
}
