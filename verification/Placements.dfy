/** Places and their keys, the join that settles when all placements agree, and the sorting of sets of places. */
module Placements {
  import opened Json
  import opened Sequences
  import opened Sorting

  datatype ClassPlace = ClassPlace(file: string, name: string)

  /** A file, a span of offsets in it, and perhaps the class a method is reached through. */
  datatype Place = Place(file: string, start: nat, end: nat, receiverClass: Option<ClassPlace>)

  datatype ReceiverOf = ReceiverOf(own: bool, made: seq<string>)

  /** One text for a file and a span. */
  function DeclarationKey(file: string, start: nat, end: nat): string {
    file + ":" + NatText(start) + "-" + NatText(end)
  }

  // ------------------------------------------------------------ the key is faithful

  lemma SeparatorAt(a: string, x: string, separator: char, whole: string)
    requires forall i :: 0 <= i < |x| ==> x[i] != separator
    requires whole == a + [separator] + x
    ensures whole[|a|] == separator && forall i :: |a| < i < |whole| ==> whole[i] != separator
    ensures a == whole[..|a|] && x == whole[|a| + 1..]
  {
    forall i | |a| < i < |whole|
      ensures whole[i] == x[i - |a| - 1]
    {
    }
  }

  /** What comes after a separator that is not in it can be told from what comes before. */
  lemma LastPart(a: string, x: string, b: string, y: string, separator: char)
    requires forall i :: 0 <= i < |x| ==> x[i] != separator
    requires forall i :: 0 <= i < |y| ==> y[i] != separator
    requires a + [separator] + x == b + [separator] + y
    ensures a == b && x == y
  {
    var whole := a + [separator] + x;
    SeparatorAt(a, x, separator, whole);
    SeparatorAt(b, y, separator, whole);
  }

  /** Two declarations have one key only when they are one. */
  lemma DeclarationKeyIsFaithful(file: string, start: nat, end: nat, file': string, start': nat, end': nat)
    requires DeclarationKey(file, start, end) == DeclarationKey(file', start', end')
    ensures file == file' && start == start' && end == end'
  {
    var a, b := file + ":" + NatText(start), file' + ":" + NatText(start');
    assert a + ['-'] + NatText(end) == b + ['-'] + NatText(end');
    LastPart(a, NatText(end), b, NatText(end'), '-');
    assert file + [':'] + NatText(start) == file' + [':'] + NatText(start');
    LastPart(file, NatText(start), file', NatText(start'), ':');
    NatTextInjective(start, start');
    NatTextInjective(end, end');
  }

  datatype PlaceKey = PlaceKey(declaration: string, receiverClass: Option<ClassPlace>)

  function KeyOf(p: Place): PlaceKey {
    PlaceKey(DeclarationKey(p.file, p.start, p.end), p.receiverClass)
  }

  predicate SamePlace(a: Place, b: Place) {
    KeyOf(a) == KeyOf(b)
  }

  lemma SamePlaceIsEqual(a: Place, b: Place)
    ensures SamePlace(a, b) <==> a == b
  {
    if SamePlace(a, b) { DeclarationKeyIsFaithful(a.file, a.start, a.end, b.file, b.start, b.end); }
  }

  function Lines(texts: seq<string>): string {
    if texts == [] then "" else if |texts| == 1 then texts[0] else texts[0] + "\n" + Lines(texts[1..])
  }

  datatype ReceiverKey = ReceiverKey(own: bool, made: string)

  function ReceiverKeyOf(r: ReceiverOf): ReceiverKey {
    ReceiverKey(r.own, Lines(r.made))
  }

  /** Texts that joining keeps apart: none breaks its line, and no empty one stands alone. */
  predicate PlainTexts(texts: seq<string>) {
    texts != [""] && forall i :: 0 <= i < |texts| ==> '\n' !in texts[i]
  }

  /** Of two joins that are one text, the parts before the first line break are one, and so are the rests. */
  lemma FirstPart(a: string, x: string, b: string, y: string)
    requires '\n' !in a && '\n' !in b && a + "\n" + x == b + "\n" + y
    ensures a == b && x == y
  {
    var whole := a + "\n" + x;
    assert whole[|a|] == '\n' && whole[|b|] == '\n';
    assert forall i :: 0 <= i < |a| ==> whole[i] == a[i];
    assert forall i :: 0 <= i < |b| ==> whole[i] == b[i];
    assert a == whole[..|a|] && b == whole[..|b|];
    assert x == whole[|a| + 1..] && y == whole[|b| + 1..];
  }

  lemma LinesBreak(texts: seq<string>)
    requires |texts| > 1
    ensures '\n' in Lines(texts)
  {
    assert Lines(texts)[|texts[0]|] == '\n';
  }

  lemma {:induction false} SameLines(a: seq<string>, b: seq<string>)
    requires a != [] && b != [] && Lines(a) == Lines(b)
    requires forall i :: 0 <= i < |a| ==> '\n' !in a[i]
    requires forall i :: 0 <= i < |b| ==> '\n' !in b[i]
    ensures a == b
  {
    if |a| > 1 && |b| > 1 {
      FirstPart(a[0], Lines(a[1..]), b[0], Lines(b[1..]));
      SameLines(a[1..], b[1..]);
      assert a == [a[0]] + a[1..] && b == [b[0]] + b[1..];
    } else if |a| > 1 {
      LinesBreak(a);
    } else if |b| > 1 {
      LinesBreak(b);
    }
  }

  lemma EmptyLines(a: seq<string>)
    requires PlainTexts(a) && Lines(a) == ""
    ensures a == []
  {
    if |a| > 1 { LinesBreak(a); }
  }

  /** Receivers made at plain texts have one key only when they are one. */
  lemma ReceiverKeyIsFaithful(a: ReceiverOf, b: ReceiverOf)
    requires PlainTexts(a.made) && PlainTexts(b.made)
    ensures ReceiverKeyOf(a) == ReceiverKeyOf(b) <==> a == b
  {
    if ReceiverKeyOf(a) == ReceiverKeyOf(b) {
      if a.made == [] {
        EmptyLines(b.made);
      } else if b.made == [] {
        EmptyLines(a.made);
      } else {
        SameLines(a.made, b.made);
      }
    }
  }

  /** The parts of a text between its line breaks. */
  function Broken(text: string): (r: seq<string>)
    ensures r != [] && forall i :: 0 <= i < |r| ==> '\n' !in r[i]
    ensures r == [""] <==> text == ""
    decreases |text|
  {
    var n := IndexOf(text, '\n');
    if n == |text| then [text] else
      assert '\n' !in text[..n] by { assert forall j :: 0 <= j < n ==> text[..n][j] == text[j]; }
      [text[..n]] + Broken(text[n + 1..])
  }

  function BrokenAll(texts: seq<string>): (r: seq<string>)
    ensures forall i :: 0 <= i < |r| ==> '\n' !in r[i]
    ensures r == [] <==> texts == []
  {
    if texts == [] then [] else Broken(texts[0]) + BrokenAll(texts[1..])
  }

  /** The plain texts with the same join: every text broken at its line breaks, and nothing for one empty text. */
  function PlainForm(texts: seq<string>): (r: seq<string>)
    ensures PlainTexts(r)
  {
    if BrokenAll(texts) == [""] then [] else BrokenAll(texts)
  }

  lemma AtBreak(text: string, n: nat)
    requires n < |text| && text[n] == '\n'
    ensures text == text[..n] + "\n" + text[n + 1..]
  {
  }

  lemma {:induction false} LinesOfBroken(text: string)
    ensures Lines(Broken(text)) == text
    decreases |text|
  {
    var n := IndexOf(text, '\n');
    if n < |text| {
      var first, more := text[..n], Broken(text[n + 1..]);
      LinesOfBroken(text[n + 1..]);
      LinesBoth([first], more);
      AtBreak(text, n);
    } else {
      assert [text][0] == text;
    }
  }

  lemma {:induction false} LinesBoth(a: seq<string>, b: seq<string>)
    requires a != [] && b != []
    ensures Lines(a + b) == Lines(a) + "\n" + Lines(b)
  {
    assert (a + b)[1..] == a[1..] + b;
    if |a| == 1 {
      assert a[1..] + b == b;
    } else {
      LinesBoth(a[1..], b);
      assert a[0] + "\n" + (Lines(a[1..]) + "\n" + Lines(b)) == (a[0] + "\n" + Lines(a[1..])) + "\n" + Lines(b);
    }
  }

  lemma {:induction false} LinesOfBrokenAll(texts: seq<string>)
    ensures Lines(BrokenAll(texts)) == Lines(texts)
  {
    if texts != [] {
      LinesOfBroken(texts[0]);
      if |texts| == 1 {
        assert Broken(texts[0]) + [] == Broken(texts[0]);
      } else {
        LinesOfBrokenAll(texts[1..]);
        LinesBoth(Broken(texts[0]), BrokenAll(texts[1..]));
      }
    }
  }

  lemma PlainFormSharesKey(r: ReceiverOf)
    ensures ReceiverKeyOf(ReceiverOf(r.own, PlainForm(r.made))) == ReceiverKeyOf(r)
  {
    LinesOfBrokenAll(r.made);
  }

  /** Two receivers compare alike exactly when they agree on `own` and their constructions have one plain form. */
  lemma AlikeExactly(a: ReceiverOf, b: ReceiverOf)
    ensures ReceiverKeyOf(a) == ReceiverKeyOf(b) <==> a.own == b.own && PlainForm(a.made) == PlainForm(b.made)
  {
    PlainFormSharesKey(a);
    PlainFormSharesKey(b);
    ReceiverKeyIsFaithful(ReceiverOf(a.own, PlainForm(a.made)), ReceiverOf(b.own, PlainForm(b.made)));
  }

  /** A receiver is told from every other plain one exactly when it is plain itself. */
  lemma ToldFromPlain(a: ReceiverOf)
    ensures PlainTexts(a.made) <==>
            forall b: ReceiverOf :: PlainTexts(b.made) && ReceiverKeyOf(b) == ReceiverKeyOf(a) ==> b == a
  {
    if PlainTexts(a.made) {
      forall b: ReceiverOf | PlainTexts(b.made) && ReceiverKeyOf(b) == ReceiverKeyOf(a)
        ensures b == a
      {
        ReceiverKeyIsFaithful(a, b);
      }
    } else {
      PlainFormSharesKey(a);
      assert ReceiverOf(a.own, PlainForm(a.made)) != a;
    }
  }

  /** A receiver made at one text, neither empty nor with a line break. */
  predicate MadeAtOne(a: ReceiverOf) {
    |a.made| == 1 && PlainTexts(a.made)
  }

  lemma OnlyOneText(texts: seq<string>, text: string)
    requires Lines(texts) == text && text != "" && '\n' !in text
    ensures texts == [text]
  {
    if |texts| > 1 { LinesBreak(texts); }
  }

  /** A receiver is told from every other one exactly when it was made at one plain text. */
  lemma ToldFromAll(a: ReceiverOf)
    ensures MadeAtOne(a) <==> forall b: ReceiverOf :: ReceiverKeyOf(b) == ReceiverKeyOf(a) ==> b == a
  {
    if MadeAtOne(a) {
      forall b: ReceiverOf | ReceiverKeyOf(b) == ReceiverKeyOf(a)
        ensures b == a
      {
        assert a.made == [a.made[0]];
        OnlyOneText(b.made, a.made[0]);
      }
    } else {
      var other := OtherWithKey(a);
      assert other != a;
    }
  }

  /** Another receiver that compares alike: the plain form, or else the whole join as one text. */
  lemma OtherWithKey(a: ReceiverOf) returns (b: ReceiverOf)
    requires !MadeAtOne(a)
    ensures b != a && ReceiverKeyOf(b) == ReceiverKeyOf(a)
  {
    if PlainTexts(a.made) {
      b := ReceiverOf(a.own, [Lines(a.made)]);
    } else {
      b := ReceiverOf(a.own, PlainForm(a.made));
      PlainFormSharesKey(a);
    }
  }

  /** Two pairs that compare alike: one for a line break, one for an empty text alone. */
  lemma OtherTextsShareKeys(own: bool)
    ensures ReceiverKeyOf(ReceiverOf(own, ["a\nb"])) == ReceiverKeyOf(ReceiverOf(own, ["a", "b"]))
    ensures ReceiverKeyOf(ReceiverOf(own, [""])) == ReceiverKeyOf(ReceiverOf(own, []))
  {
    assert Lines(["a", "b"][1..]) == "b";
  }

  // ------------------------------------------------------------------- the join

  /** What is known once one more placement is: the first, nothing when two disagree or one could not tell. */
  function Join<T, K(==)>(keyOf: T -> K, known: Option<Option<T>>, next: Option<T>): Option<Option<T>> {
    if known.None? then Some(next)
    else if known.value.Some? && (next.None? || keyOf(known.value.value) != keyOf(next.value)) then Some(None)
    else known
  }

  function JoinAll<T, K(==)>(keyOf: T -> K, placed: seq<Option<T>>): Option<Option<T>> {
    if placed == [] then None else Join(keyOf, JoinAll(keyOf, placed[..|placed| - 1]), placed[|placed| - 1])
  }

  /** Some placement there is, and all of them say the same. */
  predicate Agree<T, K(==)>(keyOf: T -> K, placed: seq<Option<T>>) {
    placed != [] && forall i :: 0 <= i < |placed| ==>
      placed[i].Some? && placed[0].Some? && keyOf(placed[i].value) == keyOf(placed[0].value)
  }

  lemma AgreeSnoc<T, K>(keyOf: T -> K, front: seq<Option<T>>, last: Option<T>)
    ensures Agree(keyOf, front + [last]) <==>
            last.Some? && (front != [] ==> Agree(keyOf, front) && keyOf(last.value) == keyOf(front[0].value))
  {
    var placed, n := front + [last], |front|;
    assert placed[n] == last && forall i :: 0 <= i < n ==> placed[i] == front[i];
    if Agree(keyOf, placed) {
      assert placed[n].Some?;
    }
  }

  /** The join settles on the first placement when there is one and all agree, and on nothing when they do not. */
  lemma {:induction false} JoinSettles<T, K>(keyOf: T -> K, placed: seq<Option<T>>)
    ensures JoinAll(keyOf, placed) == if placed == [] then None else if Agree(keyOf, placed) then Some(placed[0])
            else Some(None)
  {
    if placed != [] {
      var front, last := placed[..|placed| - 1], placed[|placed| - 1];
      assert placed == front + [last];
      JoinSettles(keyOf, front);
      AgreeSnoc(keyOf, front, last);
      assert front != [] ==> placed[0] == front[0];
    }
  }

  // ------------------------------------------------------------------- sorting

  function DeclarationOf(p: Place): string {
    DeclarationKey(p.file, p.start, p.end)
  }

  function Declarations(places: seq<Place>): seq<string> {
    KeysBy(DeclarationOf, places)
  }

  /** The places by declaration key. */
  function Sorted(places: seq<Place>): seq<Place> {
    SortBy(DeclarationOf, places)
  }

  /** Sorted, the places are the same as often, their declarations ascend, and those of one declaration keep their
      order. */
  lemma SortedSet(places: seq<Place>)
    ensures multiset(Sorted(places)) == multiset(places) && Ascending(Declarations(Sorted(places)))
    ensures forall i :: 0 <= i < |places| ==>
              Declarations(places)[i] == places[i].file + ":" + NatText(places[i].start) + "-" + NatText(places[i].end)
    ensures forall key :: Having(DeclarationOf, Sorted(places), key) == Having(DeclarationOf, places, key)
  {
    SortKeepsItems(DeclarationOf, places);
    SortedKeys(DeclarationOf, places);
    forall key
      ensures Having(DeclarationOf, Sorted(places), key) == Having(DeclarationOf, places, key)
    {
      SortIsStable(DeclarationOf, places, key);
    }
  }

  /** Two sets of possible functions are one set exactly when they list the same declarations as often. */
  lemma SameSets(a: seq<Place>, b: seq<Place>)
    ensures Declarations(Sorted(a)) == Declarations(Sorted(b)) <==>
            multiset(Declarations(a)) == multiset(Declarations(b))
  {
    SameKeys(DeclarationOf, a, b);
  }
}
