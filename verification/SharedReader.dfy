/** Reading a summaries file back: references are replaced by copies of what they refer to. */
module SharedReader {
  import opened Json
  import opened Sequences

  /** What each definition's number stands for, by the number's literal. */
  type Defined = map<string, Value>

  predicate IsNumber(v: Value) {
    v.Primitive? && v.atom.Number?
  }

  predicate IsReference(v: Value) {
    && v.Container? && v.names == Named(["$ref"])
    && |v.items| == 1 && IsNumber(v.items[0])
  }

  /** Where a definition has its value, or two when the keys are not a definition's. */
  function ValueAt(names: Names): nat {
    if names == Named(["$def", "$value"]) then 1 else if names == Named(["$value", "$def"]) then 0 else 2
  }

  predicate IsDefinition(v: Value) {
    && v.Container? && |v.items| == 2 && ValueAt(v.names) < 2
    && IsNumber(v.items[1 - ValueAt(v.names)])
  }

  /** No object in the value has a shape the writer uses for its own. */
  predicate NoneReserved(v: Value) {
    v.Container? ==>
      && !IsReference(v) && !IsDefinition(v)
      && forall i :: 0 <= i < |v.items| ==> NoneReserved(v.items[i])
  }

  /** A copy built by assigning each key to a fresh object: assigning to `__proto__` adds no key. */
  function Copied(v: Value): Value
    decreases v, 1
  {
    match v
    case Primitive(_) => v
    case Container(Unnamed, items) => Container(Unnamed, CopiedAll(items))
    case Container(Named(names), items) =>
      var (names', items') := CopiedFields(names, items);
      Container(Named(names'), items')
  }

  function CopiedAll(vs: seq<Value>): (r: seq<Value>)
    ensures |r| == |vs|
    decreases vs, 0
  {
    if vs == [] then [] else [Copied(vs[0])] + CopiedAll(vs[1..])
  }

  function CopiedFields(names: seq<string>, items: seq<Value>): (seq<string>, seq<Value>)
    decreases items, 0
  {
    if names == [] || items == [] then ([], []) else
      var copy := Copied(items[0]);
      var (names', items') := CopiedFields(names[1..], items[1..]);
      if names[0] == PROTO then (names', items') else ([names[0]] + names', [copy] + items')
  }

  /** The value a tree stands for given a table of definitions, and the table after it. */
  function Expand(v: Value, defined: Defined): (Value, Defined)
    decreases v, 1
  {
    if v.Primitive? then (v, defined)
    else if IsReference(v) then
      var number := v.items[0].atom.literal;
      (if number in defined then Copied(defined[number]) else v, defined)
    else if IsDefinition(v) then
      var at := ValueAt(v.names);
      var (value, after) := Expand(v.items[at], defined);
      (value, after[v.items[1 - at].atom.literal := value])
    else
      var (items, after) := ExpandAll(v.items, defined);
      (Container(v.names, items), after)
  }

  function ExpandAll(vs: seq<Value>, defined: Defined): (r: (seq<Value>, Defined))
    ensures |r.0| == |vs|
    decreases vs, 0
  {
    if vs == [] then ([], defined) else
      var (v, between) := Expand(vs[0], defined);
      var (rest, after) := ExpandAll(vs[1..], between);
      ([v] + rest, after)
  }

  /** Holds the table that `Expand` threads from one summary to the next. */
  class SharedValueReader {
    var defined: Defined

    constructor ()
      ensures defined == map[]
    {
      defined := map[];
    }

    method ExpandNode(node: Value) returns (value: Value)
      modifies this
      ensures (value, defined) == Expand(node, old(defined))
      decreases node
    {
      if node.Primitive? {
        return node;
      }
      if IsReference(node) {
        var number := node.items[0].atom.literal;
        return if number in defined then Copied(defined[number]) else node;
      }
      if IsDefinition(node) {
        var at := ValueAt(node.names);
        value := ExpandNode(node.items[at]);
        defined := defined[node.items[1 - at].atom.literal := value];
        return;
      }
      var items := node.items;
      ghost var (all, end) := ExpandAll(node.items, defined);
      for at := 0 to |items|
        invariant |items| == |node.items| && items[at..] == node.items[at..]
        invariant items[..at] == all[..at]
        invariant ExpandAll(node.items[at..], defined) == (all[at..], end)
      {
        var rest, done := node.items[at..], all[at..];
        assert rest[1..] == node.items[at + 1..] && done[1..] == all[at + 1..];
        assert items[at] == items[at..][0] == node.items[at];
        ghost var others := ExpandAll(rest[1..], Expand(rest[0], defined).1).0;
        assert done == [Expand(rest[0], defined).0] + others && done[1..] == others;
        var item := ExpandNode(items[at]);
        assert items[at..][1..] == items[at + 1..];
        items := items[at := item];
        assert items[..at + 1] == all[..at] + [item] == all[..at + 1];
      }
      assert items[..|items|] == items && all[..|items|] == all;
      assert node.items[|items|..] == [] && node.items[0..] == node.items && all[0..] == all;
      value := Container(node.names, items);
    }
  }

  // ------------------------------------------------------- what a copy keeps

  lemma {:induction false} CopyHasNoProto(v: Value)
    ensures !HasProto(Copied(v))
    decreases v, 1
  {
    match v
    case Primitive(_) =>
    case Container(Unnamed, items) => CopiesHaveNoProto(items);
    case Container(Named(names), items) => CopiedFieldsHaveNoProto(names, items);
  }

  lemma {:induction false} CopiesHaveNoProto(vs: seq<Value>)
    ensures forall i :: 0 <= i < |vs| ==> !HasProto(CopiedAll(vs)[i])
    decreases vs, 0
  {
    if vs != [] {
      CopyHasNoProto(vs[0]);
      CopiesHaveNoProto(vs[1..]);
    }
  }

  lemma {:induction false} CopiedFieldsHaveNoProto(names: seq<string>, items: seq<Value>)
    ensures PROTO !in CopiedFields(names, items).0
    ensures var copies := CopiedFields(names, items).1;
            forall i :: 0 <= i < |copies| ==> !HasProto(copies[i])
    decreases items, 0
  {
    if names != [] && items != [] {
      CopyHasNoProto(items[0]);
      CopiedFieldsHaveNoProto(names[1..], items[1..]);
    }
  }

  lemma {:induction false} CopyWithoutProto(v: Value)
    requires WellFormed(v) && !HasProto(v)
    ensures Copied(v) == v
    decreases v, 1
  {
    if v.Container? {
      CopiesWithoutProto(v.items);
      if v.names.Named? { FieldsWithoutProto(v.names.names, v.items); }
    }
  }

  lemma {:induction false} CopiesWithoutProto(vs: seq<Value>)
    requires forall i :: 0 <= i < |vs| ==> WellFormed(vs[i]) && !HasProto(vs[i])
    ensures CopiedAll(vs) == vs
    decreases vs, 0
  {
    if vs != [] {
      CopyWithoutProto(vs[0]);
      CopiesWithoutProto(vs[1..]);
    }
  }

  lemma {:induction false} FieldsWithoutProto(names: seq<string>, items: seq<Value>)
    requires |names| == |items| && PROTO !in names && CopiedAll(items) == items
    ensures CopiedFields(names, items) == (names, items)
  {
    if names != [] {
      assert items == [Copied(items[0])] + CopiedAll(items[1..]);
      assert CopiedAll(items[1..]) == items[1..];
      FieldsWithoutProto(names[1..], items[1..]);
      assert [names[0]] + names[1..] == names;
    }
  }

  /** A copy is the value itself exactly when no key in it is `__proto__`. */
  lemma CopyIsWhole(v: Value)
    requires WellFormed(v)
    ensures Copied(v) == v <==> !HasProto(v)
  {
    CopyHasNoProto(v);
    if !HasProto(v) { CopyWithoutProto(v); }
  }

  /** A value with no reserved shape in it is read as it is. */
  lemma {:induction false} ReadAsItIs(v: Value, defined: Defined)
    requires NoneReserved(v)
    ensures Expand(v, defined) == (v, defined)
    decreases v, 1
  {
    if v.Container? { AllReadAsTheyAre(v.items, defined); }
  }

  lemma {:induction false} AllReadAsTheyAre(vs: seq<Value>, defined: Defined)
    requires forall i :: 0 <= i < |vs| ==> NoneReserved(vs[i])
    ensures ExpandAll(vs, defined) == (vs, defined)
    decreases vs, 0
  {
    if vs != [] {
      ReadAsItIs(vs[0], defined);
      AllReadAsTheyAre(vs[1..], defined);
      assert [vs[0]] + vs[1..] == vs;
    }
  }

  // --------------------------------------------------- what is reserved, by keys

  /** The object has this key, with this value. */
  predicate HasField(v: Value, key: string, item: Value) {
    v.Container? && v.names.Named? &&
    exists i :: 0 <= i < |v.names.names| && i < |v.items| && v.names.names[i] == key && v.items[i] == item
  }

  /** The object has these keys and no other. */
  ghost predicate HasJust(v: Value, keys: set<string>) {
    v.Container? && v.names.Named? && forall key :: key in v.names.names <==> key in keys
  }

  ghost predicate HasNumber(v: Value, key: string) {
    exists literal :: HasField(v, key, Primitive(Number(literal)))
  }

  lemma JustOne(names: seq<string>, a: string)
    requires Distinct(names) && forall key :: key in names <==> key == a
    ensures names == [a]
  {
    DistinctSize(names);
    assert (set key | key in names) == {a};
    assert names[0] in names;
  }

  lemma JustTwo(names: seq<string>, a: string, b: string)
    requires Distinct(names) && a != b && forall key :: key in names <==> key == a || key == b
    ensures names == [a, b] || names == [b, a]
  {
    DistinctSize(names);
    assert (set key | key in names) == {a, b};
    assert names[0] in names && names[1] in names;
  }

  /** A reference is an object with a number under `$ref` and nothing else. */
  lemma ReferenceExactly(v: Value)
    requires WellFormed(v)
    ensures IsReference(v) <==> HasJust(v, {"$ref"}) && HasNumber(v, "$ref")
  {
    if IsReference(v) {
      assert HasField(v, "$ref", Primitive(Number(v.items[0].atom.literal)));
    }
    if HasJust(v, {"$ref"}) && HasNumber(v, "$ref") { JustOne(v.names.names, "$ref"); }
  }

  /** A definition is an object with a number under `$def`, anything under `$value` and nothing else, in any order. */
  lemma DefinitionExactly(v: Value)
    requires WellFormed(v)
    ensures IsDefinition(v) <==> HasJust(v, {"$def", "$value"}) && HasNumber(v, "$def")
  {
    if IsDefinition(v) {
      assert HasField(v, "$def", Primitive(Number(v.items[1 - ValueAt(v.names)].atom.literal)));
    }
    if HasJust(v, {"$def", "$value"}) && HasNumber(v, "$def") { JustTwo(v.names.names, "$def", "$value"); }
  }

  /** A definition is read as its value, which the table then has under its number. */
  lemma DefinitionReads(v: Value, literal: string, value: Value, defined: Defined)
    requires WellFormed(v) && HasJust(v, {"$def", "$value"})
    requires HasField(v, "$def", Primitive(Number(literal))) && HasField(v, "$value", value)
    ensures var (whole, after) := Expand(value, defined); Expand(v, defined) == (whole, after[literal := whole])
  {
    JustTwo(v.names.names, "$def", "$value");
  }

  /** A reference is read as a copy of what the table has under its number, and as it is when there is nothing. */
  lemma ReferenceReads(v: Value, literal: string, defined: Defined)
    requires WellFormed(v) && HasJust(v, {"$ref"}) && HasField(v, "$ref", Primitive(Number(literal)))
    ensures Expand(v, defined) == (if literal in defined then Copied(defined[literal]) else v, defined)
  {
    JustOne(v.names.names, "$ref");
  }
}
