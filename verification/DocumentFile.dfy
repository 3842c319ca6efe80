/** The line layout: printing a document one item per line, and reading it back line by line. */
module DocumentFile {
  import opened Json
  import opened JsonText
  import opened JsonParse

  /** Where a file stops being JSON: at a line, or at its end. */
  datatype Error = NotJson(line: Option<nat>) | TooLarge

  datatype Result<+T> = Ok(value: T) | Err(error: Error)

  /** A file of more bytes than this is not read in one piece. */
  const MAX_STRING_CHARS := 0x1fffffe8

  const TO_JSON := "toJSON"

  // --------------------------------------------------------------- printing

  function PropertyText(v: Value): string {
    if v.Container? && v.names.Unnamed? && v.items != [] then ArrayText(MinifiedAll(v.items), "\n") else Minified(v)
  }

  function PropertyTexts(vs: seq<Value>): (r: seq<string>)
    ensures |r| == |vs|
    ensures forall i :: 0 <= i < |r| ==> r[i] == PropertyText(vs[i])
  {
    if vs == [] then [] else [PropertyText(vs[0])] + PropertyTexts(vs[1..])
  }

  predicate LaidOut(v: Value) {
    v.Container? && v.items != [] && TO_JSON !in KeysOf(v)
  }

  /** A document's text without the newline at its end. */
  function BodyText(v: Value): string {
    if !LaidOut(v) then Minified(v)
    else if v.names.Unnamed? then ArrayText(MinifiedAll(v.items), "\n")
    else ObjectText(v.names.names, PropertyTexts(v.items), "\n")
  }

  /** The whole file for a value: its body on as many lines as it has items, or on one, and a newline. */
  function DocumentText(v: Value): string {
    BodyText(v) + "\n"
  }

  function Concat<T>(pieces: seq<seq<T>>): seq<T> {
    if pieces == [] then [] else pieces[0] + Concat(pieces[1..])
  }

  lemma {:induction false} ConcatOneMore<T>(pieces: seq<seq<T>>, piece: seq<T>)
    ensures Concat(pieces + [piece]) == Concat(pieces) + piece
  {
    if pieces == [] {
      assert pieces + [piece] == [piece] && [piece][1..] == [];
      assert Concat([piece]) == piece + [];
    } else {
      assert (pieces + [piece])[1..] == pieces[1..] + [piece];
      ConcatOneMore(pieces[1..], piece);
    }
  }

  lemma {:induction false} ConcatBoth<T>(a: seq<seq<T>>, b: seq<seq<T>>)
    ensures Concat(a + b) == Concat(a) + Concat(b)
  {
    if a == [] {
      assert a + b == b;
    } else {
      assert (a + b)[1..] == a[1..] + b;
      ConcatBoth(a[1..], b);
    }
  }

  lemma {:induction false} JoinedOneMore(texts: seq<string>, text: string, separator: string)
    ensures Joined(texts + [text], separator) ==
            Joined(texts, separator) + (if texts == [] then "" else separator) + text
  {
    if texts == [] {
      assert texts + [text] == [text];
    } else {
      assert (texts + [text])[1..] == texts[1..] + [text];
      JoinedOneMore(texts[1..], text, separator);
    }
  }

  lemma MinifiedOneMore(vs: seq<Value>, i: nat)
    requires i < |vs|
    ensures MinifiedAll(vs[..i + 1]) == MinifiedAll(vs[..i]) + [Minified(vs[i])]
  {
    MinifiedEach(vs[..i + 1]);
    MinifiedEach(vs[..i]);
  }

  method ElementLines(values: seq<Value>) returns (pieces: seq<string>)
    ensures Concat(pieces) == Joined(MinifiedAll(values), ",\n")
  {
    pieces := [];
    for index := 0 to |values|
      invariant Concat(pieces) == Joined(MinifiedAll(values[..index]), ",\n")
    {
      var piece := if index == 0 then Minified(values[index]) else ",\n" + Minified(values[index]);
      ConcatOneMore(pieces, piece);
      MinifiedOneMore(values, index);
      JoinedOneMore(MinifiedAll(values[..index]), Minified(values[index]), ",\n");
      pieces := pieces + [piece];
    }
    assert values[..|values|] == values;
  }

  lemma {:induction false} LabelledOneMore(names: seq<string>, texts: seq<string>, name: string, text: string)
    requires |names| == |texts|
    ensures Labelled(names + [name], texts + [text]) == Labelled(names, texts) + [FieldText(name, text)]
    ensures |Labelled(names, texts)| == |names|
  {
    if names == [] {
      assert names + [name] == [name] && texts + [text] == [text];
      assert [name][1..] == [] && [text][1..] == [];
    } else {
      assert (names + [name])[1..] == names[1..] + [name] && (texts + [text])[1..] == texts[1..] + [text];
      LabelledOneMore(names[1..], texts[1..], name, text);
    }
  }

  /** The pieces a document is written in; their lengths do not matter to the file. */
  method DocumentPieces(v: Value) returns (pieces: seq<string>)
    requires WellFormed(v)
    ensures Concat(pieces) == DocumentText(v)
  {
    if v.Container? && v.names.Unnamed? && v.items != [] {
      var lines := ElementLines(v.items);
      pieces := ["[\n"] + lines + ["\n]\n"];
      ThreePieces([], "[\n", lines, "\n]\n");
      assert [] + ["[\n"] + lines + ["\n]\n"] == pieces && Concat<char>([]) == [];
      ArrayPieces(MinifiedAll(v.items));
      return;
    }
    if !LaidOut(v) {
      pieces := [Minified(v) + "\n"];
      assert pieces[1..] == [];
      return;
    }
    pieces := ObjectPieces(v.names.names, v.items);
  }

  function Opening(name: string, first: bool): string {
    (if first then "" else ",\n") + Quoted(name) + ":"
  }

  lemma ThreePieces(pieces: seq<string>, open: string, lines: seq<string>, close: string)
    ensures Concat(pieces + [open] + lines + [close]) == Concat(pieces) + (open + Concat(lines) + close)
  {
    ConcatOneMore(pieces, open);
    ConcatBoth(pieces + [open], lines);
    ConcatOneMore(pieces + [open] + lines, close);
  }

  lemma ArrayPieces(texts: seq<string>)
    ensures ArrayText(texts, "\n") == "[\n" + Joined(texts, ",\n") + "\n]"
  {
    assert "," + "\n" == ",\n";
  }

  method PropertyPieces(name: string, property: Value, first: bool) returns (pieces: seq<string>)
    ensures Concat(pieces) == Opening(name, first) + PropertyText(property)
  {
    pieces := [Opening(name, first)];
    assert Concat(pieces) == Opening(name, first) by { assert pieces[1..] == []; }
    if property.Container? && property.names.Unnamed? && property.items != [] {
      var lines := ElementLines(property.items);
      ThreePieces(pieces, "[\n", lines, "\n]");
      ArrayPieces(MinifiedAll(property.items));
      pieces := pieces + ["[\n"] + lines + ["\n]"];
    } else {
      ConcatOneMore(pieces, Minified(property));
      pieces := pieces + [Minified(property)];
    }
  }

  /** The first `index` fields of an object, each after the first on a line of its own. */
  function FirstFields(names: seq<string>, texts: seq<string>, index: nat): string
    requires index <= |names| == |texts|
  {
    Joined(Labelled(names[..index], texts[..index]), ",\n")
  }

  lemma FieldOpened(before: string, name: string, text: string, first: bool)
    ensures before + (if first then "" else ",\n") + FieldText(name, text) == before + Opening(name, first) + text
  {
  }

  lemma OneMoreField(names: seq<string>, texts: seq<string>, index: nat)
    requires index < |names| == |texts|
    ensures FirstFields(names, texts, index + 1) ==
            FirstFields(names, texts, index) + Opening(names[index], index == 0) + texts[index]
  {
    var fields := Labelled(names[..index], texts[..index]);
    assert names[..index + 1] == names[..index] + [names[index]] &&
           texts[..index + 1] == texts[..index] + [texts[index]];
    LabelledOneMore(names[..index], texts[..index], names[index], texts[index]);
    JoinedOneMore(fields, FieldText(names[index], texts[index]), ",\n");
    assert fields == [] <==> index == 0;
    FieldOpened(Joined(fields, ",\n"), names[index], texts[index], index == 0);
  }

  lemma ObjectFields(names: seq<string>, texts: seq<string>)
    requires |names| == |texts|
    ensures ObjectText(names, texts, "\n") + "\n" == "{\n" + FirstFields(names, texts, |names|) + "\n}\n"
  {
    assert names[..|names|] == names && texts[..|texts|] == texts;
    assert "," + "\n" == ",\n";
    BracesAround(FirstFields(names, texts, |names|));
  }

  lemma BracesAround(inside: string)
    ensures "{" + "\n" + inside + "\n" + "}" + "\n" == "{\n" + inside + "\n}\n"
  {
  }

  method ObjectPieces(names: seq<string>, items: seq<Value>) returns (pieces: seq<string>)
    requires |names| == |items|
    ensures Concat(pieces) == ObjectText(names, PropertyTexts(items), "\n") + "\n"
  {
    pieces := ["{\n"];
    ghost var texts := PropertyTexts(items);
    assert Concat(pieces) == "{\n" + FirstFields(names, texts, 0) by { assert pieces[1..] == []; }
    for index := 0 to |names|
      invariant Concat(pieces) == "{\n" + FirstFields(names, texts, index)
    {
      var property := PropertyPieces(names[index], items[index], index == 0);
      ConcatBoth(pieces, property);
      OneMoreField(names, texts, index);
      OneMorePiece(FirstFields(names, texts, index), Opening(names[index], index == 0), texts[index]);
      pieces := pieces + property;
    }
    ConcatOneMore(pieces, "\n}\n");
    pieces := pieces + ["\n}\n"];
    ObjectFields(names, texts);
  }

  lemma OneMorePiece(sofar: string, opening: string, text: string)
    ensures ("{\n" + sofar) + (opening + text) == "{\n" + (sofar + opening + text)
  {
  }

  // ------------------------------------------------- the text as plain JSON

  lemma PropertyReads(v: Value)
    requires WellFormed(v)
    ensures Reads(PropertyText(v), v)
  {
    MinifiedReads(v);
    if v.Container? && v.names.Unnamed? && v.items != [] {
      AllMinifiedRead(v.items);
      ArrayReads(MinifiedAll(v.items), v.items, "\n");
    }
  }

  lemma BodyReads(v: Value)
    requires WellFormed(v)
    ensures Reads(BodyText(v), v)
  {
    if !LaidOut(v) {
      MinifiedReads(v);
    } else if v.names.Unnamed? {
      AllMinifiedRead(v.items);
      ArrayReads(MinifiedAll(v.items), v.items, "\n");
    } else {
      forall i | 0 <= i < |v.items|
        ensures Reads(PropertyTexts(v.items)[i], v.items[i])
      {
        PropertyReads(v.items[i]);
      }
      ObjectReads(v.names.names, PropertyTexts(v.items), v.items, "\n");
    }
  }

  /** Any JSON parser reads a document as its value. */
  lemma DocumentParses(v: Value)
    requires WellFormed(v)
    ensures Parse(DocumentText(v)) == Some(v)
  {
    BodyReads(v);
    ReadsParses("", BodyText(v), v, "\n");
    assert "" + BodyText(v) + "\n" == DocumentText(v);
  }

  // --------------------------------------------------- newlines in the text

  lemma {:induction false} EscapedHasNoNewline(s: string)
    ensures '\n' !in EscapedAll(s)
  {
    if s != "" {
      EscapedHasNoNewline(s[1..]);
      assert '\n' !in Escaped(s[0]);
    }
  }

  lemma {:induction false} JoinedHasNoNewline(texts: seq<string>)
    requires forall i :: 0 <= i < |texts| ==> '\n' !in texts[i]
    ensures '\n' !in Joined(texts, ",")
  {
    if |texts| > 1 { JoinedHasNoNewline(texts[1..]); }
  }

  lemma {:induction false} LabelledHasNoNewline(names: seq<string>, texts: seq<string>)
    requires forall i :: 0 <= i < |texts| ==> '\n' !in texts[i]
    ensures forall i :: 0 <= i < |Labelled(names, texts)| ==> '\n' !in Labelled(names, texts)[i]
  {
    if names != [] && texts != [] {
      LabelledHasNoNewline(names[1..], texts[1..]);
      EscapedHasNoNewline(names[0]);
      assert '\n' !in FieldText(names[0], texts[0]);
    }
  }

  /** What `JSON.stringify` prints without an indent has no newline in it. */
  lemma {:induction false} MinifiedHasNoNewline(v: Value)
    requires WellFormed(v)
    ensures '\n' !in Minified(v)
    decreases v, 1
  {
    match v
    case Primitive(Number(literal)) => NumberTextChars(literal);
    case Primitive(Text(s)) => EscapedHasNoNewline(s);
    case Primitive(_) =>
    case Container(names, items) =>
      AllMinifiedHaveNoNewline(items);
      if names.Unnamed? {
        JoinedHasNoNewline(MinifiedAll(items));
      } else {
        LabelledHasNoNewline(names.names, MinifiedAll(items));
        JoinedHasNoNewline(Labelled(names.names, MinifiedAll(items)));
      }
  }

  lemma {:induction false} AllMinifiedHaveNoNewline(vs: seq<Value>)
    requires AllWellFormed(vs)
    ensures forall i :: 0 <= i < |vs| ==> '\n' !in MinifiedAll(vs)[i]
    decreases vs, 0
  {
    if vs != [] {
      MinifiedHasNoNewline(vs[0]);
      AllMinifiedHaveNoNewline(vs[1..]);
    }
  }

  function WithoutNewlines(s: string): string {
    if s == "" then "" else (if s[0] == '\n' then "" else [s[0]]) + WithoutNewlines(s[1..])
  }

  lemma {:induction false} WithoutNewlinesBoth(a: string, b: string)
    ensures WithoutNewlines(a + b) == WithoutNewlines(a) + WithoutNewlines(b)
  {
    if a == "" {
      assert a + b == b;
    } else {
      assert (a + b)[1..] == a[1..] + b;
      WithoutNewlinesBoth(a[1..], b);
    }
  }

  lemma {:induction false} NoNewlinesToDelete(s: string)
    requires '\n' !in s
    ensures WithoutNewlines(s) == s
  {
    if s != "" {
      NoNewlinesToDelete(s[1..]);
      assert [s[0]] + s[1..] == s;
    }
  }

  lemma {:induction false} JoinedWithoutNewlines(texts: seq<string>, minified: seq<string>)
    requires |texts| == |minified|
    requires forall i :: 0 <= i < |texts| ==> WithoutNewlines(texts[i]) == minified[i]
    ensures WithoutNewlines(Joined(texts, ",\n")) == Joined(minified, ",")
  {
    if |texts| > 1 {
      WithoutNewlinesBoth(texts[0] + ",\n", Joined(texts[1..], ",\n"));
      WithoutNewlinesBoth(texts[0], ",\n");
      assert WithoutNewlines(",\n") == "," by {
        assert ",\n"[1..] == "\n" && "\n"[1..] == "";
        assert "," + "" == ",";
      }
      JoinedWithoutNewlines(texts[1..], minified[1..]);
    }
  }

  lemma WrappedWithoutNewlines(open: char, joined: string, close: char)
    requires open != '\n' && close != '\n'
    ensures WithoutNewlines([open] + "\n" + joined + "\n" + [close]) == [open] + WithoutNewlines(joined) + [close]
  {
    WithoutNewlinesBoth([open] + "\n" + joined + "\n", [close]);
    WithoutNewlinesBoth([open] + "\n" + joined, "\n");
    WithoutNewlinesBoth([open] + "\n", joined);
    WithoutNewlinesBoth([open], "\n");
    assert [open][1..] == "" && [close][1..] == "" && "\n"[1..] == "";
    NoNewlinesToDelete([open]);
    NoNewlinesToDelete([close]);
  }

  lemma ArrayWithoutNewlines(vs: seq<Value>)
    requires AllWellFormed(vs)
    ensures WithoutNewlines(ArrayText(MinifiedAll(vs), "\n")) == Minified(Container(Unnamed, vs))
  {
    var texts := MinifiedAll(vs);
    AllMinifiedHaveNoNewline(vs);
    forall i | 0 <= i < |texts|
      ensures WithoutNewlines(texts[i]) == texts[i]
    {
      NoNewlinesToDelete(texts[i]);
    }
    JoinedWithoutNewlines(texts, texts);
    assert "," + "\n" == ",\n";
    WrappedWithoutNewlines('[', Joined(texts, ",\n"), ']');
  }

  lemma PropertyWithoutNewlines(v: Value)
    requires WellFormed(v)
    ensures WithoutNewlines(PropertyText(v)) == Minified(v)
  {
    MinifiedHasNoNewline(v);
    NoNewlinesToDelete(Minified(v));
    if v.Container? && v.names.Unnamed? && v.items != [] {
      ArrayWithoutNewlines(v.items);
      assert v == Container(Unnamed, v.items);
    }
  }

  lemma {:induction false} FieldsWithoutNewlines(names: seq<string>, vs: seq<Value>)
    requires |names| == |vs| && AllWellFormed(vs)
    ensures var fields, minified := Labelled(names, PropertyTexts(vs)), Labelled(names, MinifiedAll(vs));
            |fields| == |minified| && forall i :: 0 <= i < |fields| ==> WithoutNewlines(fields[i]) == minified[i]
  {
    if names != [] {
      FieldsWithoutNewlines(names[1..], vs[1..]);
      PropertyWithoutNewlines(vs[0]);
      EscapedHasNoNewline(names[0]);
      NoNewlinesToDelete(Quoted(names[0]) + ":");
      WithoutNewlinesBoth(Quoted(names[0]) + ":", PropertyText(vs[0]));
    }
  }

  lemma ObjectWithoutNewlines(names: seq<string>, vs: seq<Value>)
    requires |names| == |vs| && AllWellFormed(vs)
    ensures WithoutNewlines(ObjectText(names, PropertyTexts(vs), "\n")) == Minified(Container(Named(names), vs))
  {
    var fields := Labelled(names, PropertyTexts(vs));
    FieldsWithoutNewlines(names, vs);
    JoinedWithoutNewlines(fields, Labelled(names, MinifiedAll(vs)));
    assert "," + "\n" == ",\n";
    WrappedWithoutNewlines('{', Joined(fields, ",\n"), '}');
  }

  lemma BodyWithoutNewlines(v: Value)
    requires WellFormed(v)
    ensures WithoutNewlines(BodyText(v)) == Minified(v)
  {
    if !LaidOut(v) {
      MinifiedHasNoNewline(v);
      NoNewlinesToDelete(Minified(v));
    } else {
      assert v == Container(v.names, v.items);
      if v.names.Unnamed? { ArrayWithoutNewlines(v.items); } else { ObjectWithoutNewlines(v.names.names, v.items); }
    }
  }

  /** Deleting the newlines from a document leaves what `JSON.stringify` prints. */
  lemma DocumentWithoutNewlines(v: Value)
    requires WellFormed(v)
    ensures WithoutNewlines(DocumentText(v)) == Minified(v)
  {
    BodyWithoutNewlines(v);
    WithoutNewlinesBoth(BodyText(v), "\n");
    assert WithoutNewlines("\n") == "" by { assert "\n"[1..] == ""; }
    assert DocumentText(v) == BodyText(v) + "\n";
  }
}
