/** A text of a value that forgets the order of keys and nothing more, proved injective up to that order. */
module StableTexts {
  import opened Json
  import opened JsonText
  import opened JsonParse
  import opened Sequences
  import opened Sorting

  /** A value that may be missing, as a field left undefined is. */
  datatype Loose = Absent | Scalar(atom: Atom) | List(items: seq<Loose>) | Record(keys: seq<string>, values: seq<Loose>)

  datatype Entry<T> = Entry(key: string, what: T)

  /** A record has one value a key and no key twice, and a number's literal is one. */
  predicate Sound(v: Loose) {
    match v
    case Absent => true
    case Scalar(atom) => WellFormed(Primitive(atom))
    case List(items) => forall i :: 0 <= i < |items| ==> Sound(items[i])
    case Record(keys, values) =>
      |keys| == |values| && Distinct(keys) && forall i :: 0 <= i < |values| ==> Sound(values[i])
  }

  function KeyIn<T>(e: Entry<T>): string {
    e.key
  }

  function SortEntries<T>(entries: seq<Entry<T>>): seq<Entry<T>> {
    SortBy(KeyIn, entries)
  }

  // -------------------------------------------------------------- the stable text

  /** The fields a record has, in order, with the text of each. */
  function PresentTexts(keys: seq<string>, values: seq<Loose>): seq<Entry<string>>
    decreases values, 0
  {
    if keys == [] || values == [] then [] else
      (if values[0].Absent? then [] else [Entry(keys[0], StableJson(values[0]))]) + PresentTexts(keys[1..], values[1..])
  }

  function Fields(entries: seq<Entry<string>>): seq<string> {
    if entries == [] then [] else [Quoted(entries[0].key) + ":" + entries[0].what] + Fields(entries[1..])
  }

  function StableJson(v: Loose): string
    decreases v, 1
  {
    match v
    case Absent => "null"
    case Scalar(atom) => AtomText(atom)
    case List(items) => "[" + Joined(StableAll(items), ",") + "]"
    case Record(keys, values) => "{" + Joined(Fields(SortEntries(PresentTexts(keys, values))), ",") + "}"
  }

  function StableAll(items: seq<Loose>): (r: seq<string>)
    ensures |r| == |items|
    decreases items, 0
  {
    if items == [] then [] else [StableJson(items[0])] + StableAll(items[1..])
  }

  // --------------------------------------------------------------- what it stands for

  function PresentValues(keys: seq<string>, values: seq<Loose>): seq<Entry<Value>>
    decreases values, 0
  {
    if keys == [] || values == [] then [] else
      (if values[0].Absent? then [] else [Entry(keys[0], Canonical(values[0]))]) + PresentValues(keys[1..], values[1..])
  }

  function EntryKeys<T>(entries: seq<Entry<T>>): seq<string> {
    KeysBy(KeyIn, entries)
  }

  function EntryValues<T>(entries: seq<Entry<T>>): (r: seq<T>)
    ensures |r| == |entries| && forall i :: 0 <= i < |r| ==> r[i] == entries[i].what
  {
    if entries == [] then [] else [entries[0].what] + EntryValues(entries[1..])
  }

  /** The JSON value the stable text is the text of: missing values read as null, missing fields gone, keys in order. */
  function Canonical(v: Loose): Value
    decreases v, 1
  {
    match v
    case Absent => Primitive(Null)
    case Scalar(atom) => Primitive(atom)
    case List(items) => Container(Unnamed, CanonicalAll(items))
    case Record(keys, values) =>
      var sorted := SortEntries(PresentValues(keys, values));
      Container(Named(EntryKeys(sorted)), EntryValues(sorted))
  }

  function CanonicalAll(items: seq<Loose>): (r: seq<Value>)
    ensures |r| == |items|
    ensures forall i :: 0 <= i < |r| ==> r[i] == Canonical(items[i])
    decreases items, 0
  {
    if items == [] then [] else [Canonical(items[0])] + CanonicalAll(items[1..])
  }

  function TextOf(e: Entry<Value>): Entry<string> {
    Entry(e.key, Minified(e.what))
  }

  function TextsOf(entries: seq<Entry<Value>>): (r: seq<Entry<string>>)
    ensures |r| == |entries| && forall i :: 0 <= i < |r| ==> r[i] == TextOf(entries[i])
  {
    if entries == [] then [] else [TextOf(entries[0])] + TextsOf(entries[1..])
  }

  lemma TextsSnoc(entries: seq<Entry<Value>>, e: Entry<Value>)
    ensures TextsOf(entries + [e]) == TextsOf(entries) + [TextOf(e)]
  {
  }

  lemma {:induction false} InsertTexts(sorted: seq<Entry<Value>>, e: Entry<Value>)
    ensures InsertBy(KeyIn, TextsOf(sorted), TextOf(e)) == TextsOf(InsertBy(KeyIn, sorted, e))
  {
    if sorted != [] {
      var front, last := sorted[..|sorted| - 1], sorted[|sorted| - 1];
      assert sorted == front + [last];
      TextsSnoc(front, last);
      InsertTexts(front, e);
      TextsSnoc(InsertBy(KeyIn, front, e), last);
      TextsSnoc(sorted, e);
      assert TextsOf(sorted)[..|sorted| - 1] == TextsOf(front);
    }
  }

  lemma {:induction false} SortTexts(entries: seq<Entry<Value>>)
    ensures SortEntries(TextsOf(entries)) == TextsOf(SortEntries(entries))
  {
    if entries != [] {
      var front, last := entries[..|entries| - 1], entries[|entries| - 1];
      assert entries == front + [last];
      TextsSnoc(front, last);
      SortTexts(front);
      InsertTexts(SortEntries(front), last);
      assert TextsOf(entries)[..|entries| - 1] == TextsOf(front);
    }
  }

  lemma {:induction false} FieldsAreLabelled(entries: seq<Entry<Value>>)
    ensures Fields(TextsOf(entries)) == Labelled(EntryKeys(entries), MinifiedAll(EntryValues(entries)))
  {
    if entries != [] { FieldsAreLabelled(entries[1..]); }
  }

  /** The stable text is the minified text of the canonical value. */
  lemma {:induction false} StableIsMinified(v: Loose)
    ensures StableJson(v) == Minified(Canonical(v))
    decreases v, 1
  {
    match v {
      case List(items) => StableAllIsMinified(items);
      case Record(keys, values) =>
        var present := PresentValues(keys, values);
        PresentIsMinified(keys, values);
        SortTexts(present);
        FieldsAreLabelled(SortEntries(present));
      case _ =>
    }
  }

  lemma {:induction false} StableAllIsMinified(items: seq<Loose>)
    ensures StableAll(items) == MinifiedAll(CanonicalAll(items))
    decreases items, 0
  {
    if items != [] {
      StableIsMinified(items[0]);
      StableAllIsMinified(items[1..]);
      assert CanonicalAll(items)[1..] == CanonicalAll(items[1..]);
    }
  }

  lemma {:induction false} PresentIsMinified(keys: seq<string>, values: seq<Loose>)
    ensures PresentTexts(keys, values) == TextsOf(PresentValues(keys, values))
    decreases values, 0
  {
    if keys != [] && values != [] {
      StableIsMinified(values[0]);
      PresentIsMinified(keys[1..], values[1..]);
      var rest := PresentValues(keys[1..], values[1..]);
      if !values[0].Absent? {
        assert ([Entry(keys[0], Canonical(values[0]))] + rest)[1..] == rest;
      } else {
        assert PresentValues(keys, values) == rest;
        assert PresentTexts(keys, values) == PresentTexts(keys[1..], values[1..]);
      }
    }
  }

  // ------------------------------------------------------------------- equality

  predicate ReadsNull(v: Loose) {
    v.Absent? || v == Scalar(Null)
  }

  /** The key has a value in the record, the same as `v` up to the order of keys. */
  predicate HoldsSame(v: Loose, key: string, keys: seq<string>, values: seq<Loose>)
    decreases v, 2
  {
    exists j :: 0 <= j < |keys| && j < |values| && keys[j] == key && !values[j].Absent? && Same(v, values[j])
  }

  predicate Has(key: string, keys: seq<string>, values: seq<Loose>) {
    exists j :: 0 <= j < |keys| && j < |values| && keys[j] == key && !values[j].Absent?
  }

  /** Equal up to the order of a record's keys, its undefined fields, and undefined read as null anywhere else. */
  predicate Same(a: Loose, b: Loose)
    decreases a, 1
  {
    match a
    case Absent => ReadsNull(b)
    case Scalar(atom) => b == a || (atom.Null? && b.Absent?)
    case List(items) => b.List? && |items| == |b.items| && forall i :: 0 <= i < |items| ==> Same(items[i], b.items[i])
    case Record(keys, values) =>
      && b.Record?
      && (forall i :: 0 <= i < |keys| && i < |values| && !values[i].Absent? ==>
          HoldsSame(values[i], keys[i], b.keys, b.values))
      && (forall j :: 0 <= j < |b.keys| && j < |b.values| && !b.values[j].Absent? ==> Has(b.keys[j], keys, values))
  }

  predicate At(keys: seq<string>, values: seq<Loose>, i: int, e: Entry<Value>) {
    0 <= i < |keys| && i < |values| && keys[i] == e.key && !values[i].Absent? && Canonical(values[i]) == e.what
  }

  lemma {:induction false} PresentMembers(keys: seq<string>, values: seq<Loose>, e: Entry<Value>)
    requires |keys| == |values|
    ensures e in PresentValues(keys, values) <==> exists i :: At(keys, values, i, e)
  {
    if keys != [] {
      PresentMembers(keys[1..], values[1..], e);
      if i :| At(keys, values, i, e) {
        if i > 0 { assert At(keys[1..], values[1..], i - 1, e); }
      }
      if j :| At(keys[1..], values[1..], j, e) { assert At(keys, values, j + 1, e); }
      assert !values[0].Absent? && Entry(keys[0], Canonical(values[0])) == e ==> At(keys, values, 0, e);
    }
  }

  lemma {:induction false} PresentOwnKeys(keys: seq<string>, values: seq<Loose>)
    requires |keys| == |values| && Distinct(keys)
    ensures Distinct(EntryKeys(PresentValues(keys, values)))
  {
    if keys != [] {
      PresentOwnKeys(keys[1..], values[1..]);
      var rest := PresentValues(keys[1..], values[1..]);
      forall i | 0 <= i < |rest|
        ensures rest[i].key != keys[0]
      {
        assert rest[i] in rest;
        PresentMembers(keys[1..], values[1..], rest[i]);
      }
    }
  }

  lemma {:induction false} CanonicalWellFormed(v: Loose)
    requires Sound(v)
    ensures WellFormed(Canonical(v))
    decreases v
  {
    match v {
      case List(items) =>
        forall i | 0 <= i < |items|
          ensures WellFormed(CanonicalAll(items)[i])
        {
          CanonicalWellFormed(items[i]);
        }
      case Record(keys, values) =>
        var present := PresentValues(keys, values);
        var sorted := SortEntries(present);
        PresentOwnKeys(keys, values);
        SortedDistinct(KeyIn, present);
        forall i | 0 <= i < |sorted|
          ensures WellFormed(sorted[i].what)
        {
          assert sorted[i] in sorted;
          SortMembers(KeyIn, present, sorted[i]);
          PresentMembers(keys, values, sorted[i]);
          var k :| At(keys, values, k, sorted[i]);
          CanonicalWellFormed(values[k]);
        }
      case _ =>
    }
  }

  lemma SameContainers<T>(a: seq<Entry<T>>, b: seq<Entry<T>>)
    ensures EntryKeys(a) == EntryKeys(b) && EntryValues(a) == EntryValues(b) <==> a == b
  {
    if EntryKeys(a) == EntryKeys(b) && EntryValues(a) == EntryValues(b) {
      assert |a| == |EntryKeys(a)| == |b|;
      forall i | 0 <= i < |a|
        ensures a[i] == b[i]
      {
        assert EntryKeys(a)[i] == EntryKeys(b)[i] && EntryValues(a)[i] == EntryValues(b)[i];
      }
    }
  }

  /** Two values have one canonical form exactly when they are the same up to the order of keys and missing fields. */
  lemma {:induction false} CanonicalSame(a: Loose, b: Loose)
    requires Sound(a) && Sound(b)
    ensures Canonical(a) == Canonical(b) <==> Same(a, b)
    decreases a
  {
    match a {
      case List(items) => if b.List? { CanonicalSameLists(a, b); }
      case Record(keys, values) => if b.Record? { CanonicalSameRecords(a, b); }
      case _ =>
    }
  }

  lemma {:induction false} CanonicalSameLists(a: Loose, b: Loose)
    requires Sound(a) && Sound(b) && a.List? && b.List?
    ensures Canonical(a) == Canonical(b) <==> Same(a, b)
    decreases a, 0
  {
    var x, y := CanonicalAll(a.items), CanonicalAll(b.items);
    if |a.items| == |b.items| {
      forall i | 0 <= i < |a.items|
        ensures x[i] == y[i] <==> Same(a.items[i], b.items[i])
      {
        CanonicalSame(a.items[i], b.items[i]);
      }
    }
  }

  /** Which of a record's values a key has. */
  lemma {:induction false} CanonicalSameRecords(a: Loose, b: Loose)
    requires Sound(a) && Sound(b) && a.Record? && b.Record?
    ensures Canonical(a) == Canonical(b) <==> Same(a, b)
    decreases a, 0
  {
    var x, y := PresentValues(a.keys, a.values), PresentValues(b.keys, b.values);
    PresentOwnKeys(a.keys, a.values);
    PresentOwnKeys(b.keys, b.values);
    SortedIsSet(KeyIn, x, y);
    SameContainers(SortEntries(x), SortEntries(y));
    forall i, j | 0 <= i < |a.keys| && 0 <= j < |b.keys|
      ensures Canonical(a.values[i]) == Canonical(b.values[j]) <==> Same(a.values[i], b.values[j])
    {
      CanonicalSame(a.values[i], b.values[j]);
    }
    if Same(a, b) {
      SameHasEntries(a, b);
    }
    if forall e :: e in x <==> e in y {
      EntriesAreSame(a, b);
    }
  }

  ghost predicate Compared(a: Loose, b: Loose)
    requires a.Record? && b.Record? && |a.keys| == |a.values| && |b.keys| == |b.values|
  {
    forall i, j :: 0 <= i < |a.keys| && 0 <= j < |b.keys| ==>
      (Canonical(a.values[i]) == Canonical(b.values[j]) <==> Same(a.values[i], b.values[j]))
  }

  lemma SameHasEntries(a: Loose, b: Loose)
    requires Sound(a) && Sound(b) && a.Record? && b.Record? && Same(a, b) && Compared(a, b)
    ensures forall e :: e in PresentValues(a.keys, a.values) <==> e in PresentValues(b.keys, b.values)
  {
    forall e
      ensures e in PresentValues(a.keys, a.values) <==> e in PresentValues(b.keys, b.values)
    {
      if e in PresentValues(a.keys, a.values) { PresentThere(a, b, e); }
      if e in PresentValues(b.keys, b.values) { PresentBack(a, b, e); }
    }
  }

  lemma PresentThere(a: Loose, b: Loose, e: Entry<Value>)
    requires Sound(a) && Sound(b) && a.Record? && b.Record? && Same(a, b) && Compared(a, b)
    requires e in PresentValues(a.keys, a.values)
    ensures e in PresentValues(b.keys, b.values)
  {
    PresentMembers(a.keys, a.values, e);
    var i :| At(a.keys, a.values, i, e);
    var j := EntryThere(a, b, i);
    assert At(b.keys, b.values, j, e);
    PresentMembers(b.keys, b.values, e);
  }

  lemma PresentBack(a: Loose, b: Loose, e: Entry<Value>)
    requires Sound(a) && Sound(b) && a.Record? && b.Record? && Same(a, b) && Compared(a, b)
    requires e in PresentValues(b.keys, b.values)
    ensures e in PresentValues(a.keys, a.values)
  {
    PresentMembers(b.keys, b.values, e);
    var j :| At(b.keys, b.values, j, e);
    var i := EntryBack(a, b, j);
    assert At(a.keys, a.values, i, e);
    PresentMembers(a.keys, a.values, e);
  }

  lemma EntryThere(a: Loose, b: Loose, i: nat) returns (j: nat)
    requires Sound(a) && Sound(b) && a.Record? && b.Record? && Same(a, b) && Compared(a, b)
    requires i < |a.keys| && !a.values[i].Absent?
    ensures j < |b.keys| && b.keys[j] == a.keys[i] && !b.values[j].Absent? &&
            Canonical(b.values[j]) == Canonical(a.values[i])
  {
    assert HoldsSame(a.values[i], a.keys[i], b.keys, b.values);
    j :| 0 <= j < |b.keys| && j < |b.values| && b.keys[j] == a.keys[i] && !b.values[j].Absent? &&
      Same(a.values[i], b.values[j]);
  }

  lemma EntryBack(a: Loose, b: Loose, j: nat) returns (i: nat)
    requires Sound(a) && Sound(b) && a.Record? && b.Record? && Same(a, b) && Compared(a, b)
    requires j < |b.keys| && !b.values[j].Absent?
    ensures i < |a.keys| && a.keys[i] == b.keys[j] && !a.values[i].Absent? &&
            Canonical(a.values[i]) == Canonical(b.values[j])
  {
    assert Has(b.keys[j], a.keys, a.values);
    i :| 0 <= i < |a.keys| && i < |a.values| && a.keys[i] == b.keys[j] && !a.values[i].Absent?;
    var j' := EntryThere(a, b, i);
    assert j' == j;
  }

  lemma EntriesAreSame(a: Loose, b: Loose)
    requires Sound(a) && Sound(b) && a.Record? && b.Record? && Compared(a, b)
    requires forall e :: e in PresentValues(a.keys, a.values) <==> e in PresentValues(b.keys, b.values)
    ensures Same(a, b)
  {
    forall i | 0 <= i < |a.keys| && i < |a.values| && !a.values[i].Absent?
      ensures HoldsSame(a.values[i], a.keys[i], b.keys, b.values)
    {
      var e := Entry(a.keys[i], Canonical(a.values[i]));
      assert At(a.keys, a.values, i, e);
      PresentMembers(a.keys, a.values, e);
      PresentMembers(b.keys, b.values, e);
      var j :| At(b.keys, b.values, j, e);
    }
    forall j | 0 <= j < |b.keys| && j < |b.values| && !b.values[j].Absent?
      ensures Has(b.keys[j], a.keys, a.values)
    {
      var e := Entry(b.keys[j], Canonical(b.values[j]));
      assert At(b.keys, b.values, j, e);
      PresentMembers(a.keys, a.values, e);
      PresentMembers(b.keys, b.values, e);
      var i :| At(a.keys, a.values, i, e);
    }
  }

  /** Two values have one stable text exactly when they are the same up to the order of keys and missing fields. */
  lemma StableTextsAgree(a: Loose, b: Loose)
    requires Sound(a) && Sound(b)
    ensures StableJson(a) == StableJson(b) <==> Same(a, b)
  {
    StableIsMinified(a);
    StableIsMinified(b);
    CanonicalWellFormed(a);
    CanonicalWellFormed(b);
    MinifiedParses(Canonical(a));
    MinifiedParses(Canonical(b));
    CanonicalSame(a, b);
  }
}
