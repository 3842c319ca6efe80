/** A document read line by line is the value it was printed from. */
module DocumentRoundTrip {
  import opened Json
  import opened Sequences
  import opened JsonText
  import opened JsonParse
  import opened Utf8
  import opened DocumentFile
  import opened DocumentReader

  /** The lines of texts joined one to a line. */
  function WithCommas(texts: seq<string>): (r: seq<string>)
    ensures |r| == |texts|
  {
    if texts == [] then [] else
      [texts[0] + if |texts| == 1 then "" else ","] + WithCommas(texts[1..])
  }

  lemma JoinedPieces(first: string, more: string, tail: string)
    ensures (first + ",\n" + more) + "\n" + tail == (first + ",") + ['\n'] + (more + "\n" + tail)
    ensures first + "\n" + tail == (first + "") + ['\n'] + tail
  {
  }

  lemma JoinedFirst(texts: seq<string>, tail: string)
    requires texts != []
    ensures Joined(texts, ",\n") + "\n" + tail ==
            (texts[0] + if |texts| == 1 then "" else ",") + ['\n'] +
            (if |texts| == 1 then tail else Joined(texts[1..], ",\n") + "\n" + tail)
  {
    JoinedPieces(texts[0], Joined(texts[1..], ",\n"), tail);
  }

  lemma LineThen(line: string, rest: string, lines: seq<string>, tail: string)
    requires '\n' !in line && Split(rest, '\n') == lines + Split(tail, '\n')
    ensures Split(line + ['\n'] + rest, '\n') == [line] + lines + Split(tail, '\n')
  {
    SplitFirst(line, rest, '\n');
    assert [line] + (lines + Split(tail, '\n')) == [line] + lines + Split(tail, '\n');
  }

  lemma {:induction false} SplitJoined(texts: seq<string>, tail: string)
    requires texts != [] && forall i :: 0 <= i < |texts| ==> '\n' !in texts[i]
    ensures Split(Joined(texts, ",\n") + "\n" + tail, '\n') == WithCommas(texts) + Split(tail, '\n')
  {
    var line := texts[0] + if |texts| == 1 then "" else ",";
    JoinedFirst(texts, tail);
    if |texts| == 1 {
      assert [] + Split(tail, '\n') == Split(tail, '\n');
      LineThen(line, tail, [], tail);
    } else {
      SplitJoined(texts[1..], tail);
      LineThen(line, Joined(texts[1..], ",\n") + "\n" + tail, WithCommas(texts[1..]), tail);
    }
  }

  /** A bracket's line, the lines of what it opens, and the line that closes it. */
  lemma SplitBlock(head: string, texts: seq<string>, close: string, tail: string)
    requires texts != [] && (forall i :: 0 <= i < |texts| ==> '\n' !in texts[i]) && '\n' !in head && '\n' !in close
    ensures Split(head + ['\n'] + (Joined(texts, ",\n") + "\n" + (close + ['\n'] + tail)), '\n') ==
            [head] + (WithCommas(texts) + ([close] + Split(tail, '\n')))
  {
    SplitFirst(head, Joined(texts, ",\n") + "\n" + (close + ['\n'] + tail), '\n');
    SplitJoined(texts, close + ['\n'] + tail);
    SplitFirst(close, tail, '\n');
  }

  /** The last character of a minified value is no comma and no opening bracket. */
  lemma MinifiedEnd(v: Value)
    requires WellFormed(v)
    ensures var text := Minified(v); text != "" && text[|text| - 1] != ',' && text[|text| - 1] != '['
  {
    if v.Primitive? && v.atom.Number? { NumberTextChars(v.atom.literal); }
  }

  /** A text that a line may hold as an element or as a property's value. */
  ghost predicate ElementText(text: string, v: Value) {
    && text != "" && text[0] != ']' && text[|text| - 1] != ',' && text[|text| - 1] != '['
    && Parse(text) == Some(v)
  }

  lemma MinifiedIsElement(v: Value)
    requires WellFormed(v)
    ensures ElementText(Minified(v), v)
  {
    MinifiedEnd(v);
    MinifiedReads(v);
    MinifiedParses(v);
  }

  ghost predicate ElementTexts(texts: seq<string>, vs: seq<Value>) {
    |texts| == |vs| && forall i :: 0 <= i < |texts| ==> ElementText(texts[i], vs[i])
  }

  lemma MinifiedAreElements(vs: seq<Value>)
    requires AllWellFormed(vs)
    ensures ElementTexts(MinifiedAll(vs), vs)
  {
    MinifiedEach(vs);
    forall i | 0 <= i < |vs|
      ensures ElementText(MinifiedAll(vs)[i], vs[i])
    {
      MinifiedIsElement(vs[i]);
    }
  }

  lemma CommaTrimmed(text: string, v: Value, comma: string)
    requires ElementText(text, v) && (comma == "" || comma == ",")
    ensures WithoutTrailingComma(text + comma) == text && text + comma != "["
    ensures text + comma !in {"]", "],"}
  {
    if comma == "" {
      assert text + comma == text;
    } else {
      assert (text + comma)[..|text|] == text;
    }
    assert (text + comma)[0] == text[0];
  }

  /** Lines holding these texts. */
  ghost predicate Hold(lines: seq<Line>, texts: seq<string>) {
    |lines| == |texts| && forall i :: 0 <= i < |lines| ==> lines[i].text == texts[i]
  }

  lemma {:induction false} NumberedHold(texts: seq<string>, from: nat)
    ensures Hold(Numbered(texts, from), texts)
  {
    if texts != [] { NumberedHold(texts[1..], from + 1); }
  }

  /** Reading these lines gives these elements and leaves those lines. */
  ghost predicate ElementsAre(lines: seq<Line>, closers: set<string>, vs: seq<Value>, rest: seq<Line>) {
    ElementsUntil(lines, closers) == Ok((vs, rest))
  }

  lemma NextElement(lines: seq<Line>, text: string, vs: seq<Value>, closers: set<string>, rest: seq<Line>)
    requires lines != [] && vs != [] && ElementText(text, vs[0]) && closers <= {"]", "],"}
    requires lines[0].text == text || lines[0].text == text + ","
    requires ElementsAre(lines[1..], closers, vs[1..], rest)
    ensures ElementsAre(lines, closers, vs, rest)
  {
    CommaTrimmed(text, vs[0], if lines[0].text == text then "" else ",");
    assert text + "" == text && [vs[0]] + vs[1..] == vs;
  }

  /** The first lines hold these texts, each with or without a comma. */
  ghost predicate HoldElements(lines: seq<Line>, texts: seq<string>) {
    |texts| <= |lines| && forall i :: 0 <= i < |texts| ==> lines[i].text == texts[i] || lines[i].text == texts[i] + ","
  }

  lemma LaterElements(lines: seq<Line>, texts: seq<string>, vs: seq<Value>)
    requires ElementTexts(texts, vs) && HoldElements(lines, texts) && texts != [] && |texts| < |lines|
    ensures ElementTexts(texts[1..], vs[1..]) && HoldElements(lines[1..], texts[1..])
    ensures lines[1..][|texts[1..]|] == lines[|texts|] && lines[1..][|texts[1..]| + 1..] == lines[|texts| + 1..]
  {
  }

  lemma {:induction false} ElementsReadTo(
      lines: seq<Line>, texts: seq<string>, vs: seq<Value>, closers: set<string>, rest: seq<Line>)
    requires ElementTexts(texts, vs) && closers <= {"]", "],"}
    requires HoldElements(lines, texts) && |texts| < |lines| && lines[|texts|].text in closers
    requires rest == lines[|texts| + 1..]
    ensures ElementsAre(lines, closers, vs, rest)
    decreases |texts|
  {
    if texts != [] {
      LaterElements(lines, texts, vs);
      ElementsReadTo(lines[1..], texts[1..], vs[1..], closers, rest);
      NextElement(lines, texts[0], vs, closers, rest);
    }
  }

  /** Minified elements on lines of their own, then a closer, read back as the elements. */
  lemma ElementsRead(lines: seq<Line>, texts: seq<string>, vs: seq<Value>, closers: set<string>)
    requires ElementTexts(texts, vs) && closers <= {"]", "],"}
    requires HoldElements(lines, texts) && |texts| < |lines| && lines[|texts|].text in closers
    ensures ElementsAre(lines, closers, vs, lines[|texts| + 1..])
  {
    ElementsReadTo(lines, texts, vs, closers, lines[|texts| + 1..]);
  }

  lemma {:induction false} CommasHold(lines: seq<Line>, texts: seq<string>)
    requires Hold(lines, WithCommas(texts))
    ensures HoldElements(lines, texts)
  {
    if texts != [] {
      var line := texts[0] + if |texts| == 1 then "" else ",";
      assert WithCommas(texts) == [line] + WithCommas(texts[1..]);
      CommasHold(lines[1..], texts[1..]);
      assert texts[0] + "" == texts[0];
    }
  }

  lemma LinesInText(text: string)
    ensures LinesIn(Encoded(text)) == Numbered(Split(text, '\n'), 1)
  {
    SplitEncoded(text);
  }

  lemma HoldPrefix(lines: seq<Line>, texts: seq<string>, n: nat)
    requires Hold(lines, texts) && n <= |texts|
    ensures Hold(lines[..n], texts[..n]) && Hold(lines[n..], texts[n..])
  {
  }

  lemma BlockHolds(lines: seq<Line>, head: string, inside: seq<string>, close: string, n: nat)
    requires n == |inside| && n + 2 <= |lines| && Hold(lines[..n + 2], [head] + (inside + [close]))
    ensures lines[0].text == head && Hold(lines[1..][..n], inside) && lines[1..][n].text == close
  {
    var block, first := [head] + (inside + [close]), lines[..n + 2];
    assert first[0].text == block[0] && first[n + 1].text == block[n + 1];
    forall i | 0 <= i < n
      ensures lines[1..][..n][i].text == inside[i]
    {
      assert first[i + 1].text == block[i + 1];
    }
  }

  lemma ArrayElementsRead(lines: seq<Line>, texts: seq<string>, vs: seq<Value>, closers: set<string>)
    requires ElementTexts(texts, vs) && closers <= {"]", "],"}
    requires |texts| < |lines| && Hold(lines[..|texts|], WithCommas(texts)) && lines[|texts|].text in closers
    ensures ElementsAre(lines, closers, vs, lines[|texts| + 1..])
  {
    CommasHold(lines[..|texts|], texts);
    assert HoldElements(lines, texts) by {
      assert forall i :: 0 <= i < |texts| ==> lines[..|texts|][i] == lines[i];
    }
    ElementsRead(lines, texts, vs, closers);
  }

  lemma ArrayLinesAre(lines: seq<Line>, texts: seq<string>, vs: seq<Value>)
    requires ElementTexts(texts, vs) && Hold(lines, ["["] + (WithCommas(texts) + ["]"]))
    ensures ElementsDocument(lines) == Ok(Container(Unnamed, vs))
  {
    assert lines[..|texts| + 2] == lines;
    BlockHolds(lines, "[", WithCommas(texts), "]", |texts|);
    ArrayElementsRead(lines[1..], texts, vs, {"]"});
    assert lines[1..][|texts| + 1..] == [];
  }

  lemma ArraySplit(texts: seq<string>)
    requires texts != [] && forall i :: 0 <= i < |texts| ==> '\n' !in texts[i]
    ensures Split(ArrayText(texts, "\n") + "\n", '\n') == ["["] + (WithCommas(texts) + ["]"])
  {
    ArrayBlock(Joined(texts, ",\n"));
    assert "," + "\n" == ",\n";
    SplitBlock("[", texts, "]", "");
    assert ["]"] + [] == ["]"];
  }

  lemma ArrayBlock(joined: string)
    ensures "[" + "\n" + joined + "\n" + "]" + "\n" == "[" + ['\n'] + (joined + "\n" + ("]" + ['\n'] + ""))
  {
  }

  lemma ArrayRead(vs: seq<Value>)
    requires AllWellFormed(vs) && vs != []
    ensures ElementsDocument(LinesIn(Encoded(ArrayText(MinifiedAll(vs), "\n") + "\n"))) == Ok(Container(Unnamed, vs))
  {
    var texts := MinifiedAll(vs);
    AllMinifiedHaveNoNewline(vs);
    ArraySplit(texts);
    LinesInText(ArrayText(texts, "\n") + "\n");
    NumberedHold(["["] + (WithCommas(texts) + ["]"]), 1);
    MinifiedAreElements(vs);
    ArrayLinesAre(LinesIn(Encoded(ArrayText(texts, "\n") + "\n")), texts, vs);
  }

  // ---------------------------------------------------------------- objects

  lemma {:induction false} PlainSkipped(text: string, at: nat, n: nat)
    requires at + n <= |text| && forall i :: at <= i < at + n ==> text[i] != '\"' && text[i] != '\\'
    ensures KeyEnd(text, at) == KeyEnd(text, at + n)
    decreases n
  {
    if n > 0 { PlainSkipped(text, at + 1, n - 1); }
  }

  /** What a character is escaped as: itself, or a backslash, a letter and perhaps four digits. */
  predicate OneCharacter(e: string) {
    && |e| > 0 && (e[0] == '\\' ==> |e| == 2 || |e| == 6) && (e[0] != '\\' ==> |e| == 1 && e[0] != '\"')
    && forall i :: 2 <= i < |e| ==> e[i] != '\"' && e[i] != '\\'
  }

  lemma EscapedIsOne(c: char)
    ensures OneCharacter(Escaped(c))
  {
  }

  /** Scanning passes over one escaped character. */
  lemma EscapeSkipped(before: string, e: string, after: string)
    requires OneCharacter(e)
    ensures KeyEnd(before + e + after, |before|) == KeyEnd(before + e + after, |before| + |e|)
  {
    var text := before + e + after;
    assert forall i :: 0 <= i < |e| ==> text[|before| + i] == e[i];
    assert text[|before|] == e[0];
    if |e| == 6 {
      forall i | |before| + 2 <= i < |before| + 6
        ensures text[i] != '\"' && text[i] != '\\'
      {
        assert text[i] == e[i - |before|];
      }
      PlainSkipped(text, |before| + 2, 4);
    }
  }

  lemma Regrouped(a: string, b: string, c: string, d: string)
    ensures a + (b + c) + d == a + b + (c + d) && a + (b + c) + d == (a + b) + c + d
  {
  }

  /** A key's closing quote is found past its escapes. */
  lemma {:induction false} KeyEndsAtQuote(before: string, name: string, after: string)
    ensures KeyEnd(before + EscapedAll(name) + ("\"" + after), |before|) == |before| + |EscapedAll(name)|
    decreases |name|
  {
    if name == "" {
      assert before + "" + ("\"" + after) == before + ("\"" + after);
    } else {
      var e, more := Escaped(name[0]), EscapedAll(name[1..]);
      Regrouped(before, e, more, "\"" + after);
      EscapedIsOne(name[0]);
      EscapeSkipped(before, e, more + ("\"" + after));
      KeyEndsAtQuote(before + e, name[1..], after);
    }
  }

  lemma FieldPieces(escaped: string, rest: string)
    ensures var text := ("\"" + escaped + "\"") + ":" + rest;
            && text == "\"" + escaped + ("\"" + (":" + rest)) && |text| == 3 + |escaped| + |rest|
            && text[0] == '\"' && text[2 + |escaped|] == ':'
            && text[..2 + |escaped|] == "\"" + escaped + "\"" && text[3 + |escaped|..] == rest
  {
  }

  lemma KeyEndOf(name: string, rest: string)
    ensures var text := FieldText(name, rest);
            && KeyEnd(text, 1) == 1 + |EscapedAll(name)| && |text| == 3 + |EscapedAll(name)| + |rest|
            && text[0] == '\"' && text[2 + |EscapedAll(name)|] == ':'
            && text[..2 + |EscapedAll(name)|] == Quoted(name) && text[3 + |EscapedAll(name)|..] == rest
  {
    FieldPieces(EscapedAll(name), rest);
    KeyEndsAtQuote("\"", name, ":" + rest);
  }

  lemma KeySplit(name: string, rest: string, number: nat)
    ensures KeyAndRest(Line(FieldText(name, rest), number)) == Ok((name, rest))
  {
    KeyEndOf(name, rest);
    MinifiedParses(Primitive(Text(name)));
  }

  /** The lines of one property, with a comma unless it is the last. */
  function PropertyLines(name: string, v: Value, comma: string): seq<string> {
    if v.Container? && v.names.Unnamed? && v.items != [] then
      [FieldText(name, "[")] + (WithCommas(MinifiedAll(v.items)) + ["]" + comma])
    else [FieldText(name, Minified(v) + comma)]
  }

  function ObjectLines(names: seq<string>, vs: seq<Value>): seq<string>
    requires |names| == |vs|
  {
    if names == [] then [] else
      PropertyLines(names[0], vs[0], if |names| == 1 then "" else ",") + ObjectLines(names[1..], vs[1..])
  }

  lemma ArrayFieldText(name: string, joined: string, comma: string, tail: string)
    ensures FieldText(name, "[" + "\n" + joined + "\n" + "]") + comma + "\n" + tail ==
            FieldText(name, "[") + ['\n'] + (joined + "\n" + (("]" + comma) + ['\n'] + tail))
  {
  }

  lemma SplitArrayProperty(name: string, vs: seq<Value>, comma: string, tail: string)
    requires AllWellFormed(vs) && vs != [] && (comma == "" || comma == ",")
    ensures Split(FieldText(name, ArrayText(MinifiedAll(vs), "\n")) + comma + "\n" + tail, '\n') ==
            [FieldText(name, "[")] + (WithCommas(MinifiedAll(vs)) + ["]" + comma]) + Split(tail, '\n')
  {
    var texts := MinifiedAll(vs);
    assert ArrayText(texts, "\n") == "[" + "\n" + Joined(texts, ",\n") + "\n" + "]" by { assert "," + "\n" == ",\n"; }
    ArrayFieldText(name, Joined(texts, ",\n"), comma, tail);
    assert '\n' !in FieldText(name, "[") by { EscapedHasNoNewline(name); }
    AllMinifiedHaveNoNewline(vs);
    SplitBlock(FieldText(name, "["), texts, "]" + comma, tail);
    Regroup(FieldText(name, "["), WithCommas(texts), "]" + comma, Split(tail, '\n'));
  }

  lemma Regroup(head: string, lines: seq<string>, close: string, rest: seq<string>)
    ensures [head] + (lines + ([close] + rest)) == [head] + (lines + [close]) + rest
  {
  }

  lemma PlainFieldText(name: string, text: string, comma: string, tail: string)
    ensures FieldText(name, text) + comma + "\n" + tail == FieldText(name, text + comma) + ['\n'] + tail
  {
  }

  lemma SplitProperties(name: string, v: Value, comma: string, tail: string)
    requires WellFormed(v) && (comma == "" || comma == ",")
    ensures Split(FieldText(name, PropertyText(v)) + comma + "\n" + tail, '\n') ==
            PropertyLines(name, v, comma) + Split(tail, '\n')
  {
    if v.Container? && v.names.Unnamed? && v.items != [] {
      SplitArrayProperty(name, v.items, comma, tail);
    } else {
      EscapedHasNoNewline(name);
      MinifiedHasNoNewline(v);
      PlainFieldText(name, Minified(v), comma, tail);
      SplitFirst(FieldText(name, Minified(v) + comma), tail, '\n');
    }
  }

  lemma OneField(field: string, comma: string, rest: string)
    ensures (field + comma) + ['\n'] + rest == field + comma + "\n" + rest
  {
  }

  lemma {:induction false} SplitFields(names: seq<string>, vs: seq<Value>, tail: string)
    requires names != [] && |names| == |vs| && AllWellFormed(vs)
    ensures Split(Joined(Labelled(names, PropertyTexts(vs)), ",\n") + "\n" + tail, '\n') ==
            ObjectLines(names, vs) + Split(tail, '\n')
  {
    var fields := Labelled(names, PropertyTexts(vs));
    var first, comma := FieldText(names[0], PropertyText(vs[0])), if |names| == 1 then "" else ",";
    assert fields == [first] + Labelled(names[1..], PropertyTexts(vs[1..]));
    assert fields[1..] == Labelled(names[1..], PropertyTexts(vs[1..])) && |fields[1..]| == 0 <==> |names| == 1;
    var rest := if |names| == 1 then tail else Joined(fields[1..], ",\n") + "\n" + tail;
    JoinedFirst(fields, tail);
    OneField(first, comma, rest);
    SplitProperties(names[0], vs[0], comma, rest);
    if |names| > 1 { SplitFields(names[1..], vs[1..], tail); }
    LinesRegroup(PropertyLines(names[0], vs[0], comma), ObjectLines(names[1..], vs[1..]), Split(tail, '\n'));
  }

  lemma LinesRegroup(a: seq<string>, b: seq<string>, c: seq<string>)
    ensures a + (b + c) == (a + b) + c
    ensures b == [] ==> a + c == (a + b) + c
  {
  }

  function With(fields: Fields, name: string, v: Value): Fields {
    (fields.0 + [name], fields.1 + [v])
  }

  /** Lines with some fields read are the same object as later lines with more fields read. */
  ghost predicate SameObject(lines: seq<Line>, fields: Fields, lines': seq<Line>, fields': Fields) {
    ObjectFrom(lines, fields) == ObjectFrom(lines', fields')
  }

  ghost predicate ObjectIs(lines: seq<Line>, fields: Fields, names: seq<string>, vs: seq<Value>) {
    ObjectFrom(lines, fields) == Ok(Container(Named(names), vs))
  }

  lemma ObjectGoesOn(lines: seq<Line>, fields: Fields, lines': seq<Line>, fields': Fields, names: seq<string>,
                     vs: seq<Value>)
    requires SameObject(lines, fields, lines', fields') && ObjectIs(lines', fields', names, vs)
    ensures ObjectIs(lines, fields, names, vs)
  {
  }

  lemma ArrayLinesRead(lines: seq<Line>, name: string, vs: seq<Value>, after: seq<Line>, fields: Fields)
    requires lines != [] && lines[0].text == FieldText(name, "[") && name !in fields.0
    requires ElementsAre(lines[1..], {"]", "],"}, vs, after)
    ensures SameObject(lines, fields, after, With(fields, name, Container(Unnamed, vs)))
  {
    KeySplit(name, "[", lines[0].number);
    assert lines[0] == Line(FieldText(name, "["), lines[0].number);
    ElementsTakeLines(lines[1..], {"]", "],"});
    assert FieldText(name, "[")[0] == '\"';
  }

  lemma PlainLineRead(lines: seq<Line>, name: string, text: string, v: Value, comma: string, fields: Fields)
    requires ElementText(text, v) && (comma == "" || comma == ",") && name !in fields.0
    requires lines != [] && lines[0].text == FieldText(name, text + comma)
    ensures SameObject(lines, fields, lines[1..], With(fields, name, v))
  {
    KeySplit(name, text + comma, lines[0].number);
    assert lines[0] == Line(FieldText(name, text + comma), lines[0].number);
    CommaTrimmed(text, v, comma);
    assert FieldText(name, text + comma)[0] == '\"';
  }

  lemma ClosingLine(comma: string)
    requires comma == "" || comma == ","
    ensures "]" + comma == "]" || "]" + comma == "],"
  {
  }

  lemma ArrayPropertyRead(lines: seq<Line>, name: string, texts: seq<string>, vs: seq<Value>, close: string, n: nat,
                          fields: Fields)
    requires ElementTexts(texts, vs) && (close == "]" || close == "],") && name !in fields.0
    requires n == |texts| + 2 <= |lines| && Hold(lines[..n], [FieldText(name, "[")] + (WithCommas(texts) + [close]))
    ensures SameObject(lines, fields, lines[n..], With(fields, name, Container(Unnamed, vs)))
  {
    BlockHolds(lines, FieldText(name, "["), WithCommas(texts), close, |texts|);
    AfterBlock(lines, |texts|);
    BlockRead(lines, lines[1..], lines[n..], name, texts, vs, close, fields);
  }

  lemma AfterBlock(lines: seq<Line>, n: nat)
    requires n + 2 <= |lines|
    ensures lines[1..][n + 1..] == lines[n + 2..]
  {
  }

  lemma BlockRead(lines: seq<Line>, inside: seq<Line>, after: seq<Line>, name: string, texts: seq<string>,
                  vs: seq<Value>, close: string, fields: Fields)
    requires ElementTexts(texts, vs) && (close == "]" || close == "],") && name !in fields.0
    requires lines != [] && inside == lines[1..] && lines[0].text == FieldText(name, "[")
    requires |texts| < |inside| && Hold(inside[..|texts|], WithCommas(texts)) && inside[|texts|].text == close
    requires after == inside[|texts| + 1..]
    ensures SameObject(lines, fields, after, With(fields, name, Container(Unnamed, vs)))
  {
    ArrayElementsRead(inside, texts, vs, {"]", "],"});
    ArrayLinesRead(lines, name, vs, after, fields);
  }

  lemma PropertyRead(lines: seq<Line>, name: string, v: Value, comma: string, fields: Fields)
    requires WellFormed(v) && (comma == "" || comma == ",") && name !in fields.0
    requires |PropertyLines(name, v, comma)| <= |lines|
    requires Hold(lines[..|PropertyLines(name, v, comma)|], PropertyLines(name, v, comma))
    ensures SameObject(lines, fields, lines[|PropertyLines(name, v, comma)|..], With(fields, name, v))
  {
    if v.Container? && v.names.Unnamed? && v.items != [] {
      MinifiedAreElements(v.items);
      ClosingLine(comma);
      var n := |PropertyLines(name, v, comma)|;
      ArrayPropertyRead(lines, name, MinifiedAll(v.items), v.items, "]" + comma, n, fields);
      assert v == Container(Unnamed, v.items);
    } else {
      MinifiedIsElement(v);
      assert lines[..1][0] == lines[0];
      PlainLineRead(lines, name, Minified(v), v, comma, fields);
    }
  }

  lemma NewKey(fields: Fields, names: seq<string>, vs: seq<Value>)
    requires names != [] && |names| == |vs| && Distinct(fields.0 + names)
    ensures names[0] !in fields.0
    ensures var (names', vs') := With(fields, names[0], vs[0]);
            fields.0 + names == names' + names[1..] && fields.1 + vs == vs' + vs[1..]
  {
    assert (fields.0 + names)[|fields.0|] == names[0];
    forall i | 0 <= i < |fields.0|
      ensures fields.0[i] != names[0]
    {
      assert (fields.0 + names)[i] == fields.0[i];
    }
  }

  lemma LastLine(lines: seq<Line>, fields: Fields)
    requires Hold(lines, ["}"])
    ensures ObjectIs(lines, fields, fields.0, fields.1)
  {
  }

  lemma {:induction false} ObjectLinesRead(lines: seq<Line>, names: seq<string>, vs: seq<Value>, fields: Fields)
    requires |names| == |vs| && AllWellFormed(vs) && Distinct(fields.0 + names)
    requires Hold(lines, ObjectLines(names, vs) + ["}"])
    ensures ObjectIs(lines, fields, fields.0 + names, fields.1 + vs)
    decreases |names|
  {
    if names == [] {
      assert ObjectLines(names, vs) + ["}"] == ["}"];
      LastLine(lines, fields);
      assert fields.0 + names == fields.0 && fields.1 + vs == fields.1;
    } else {
      var comma := if |names| == 1 then "" else ",";
      var first := PropertyLines(names[0], vs[0], comma);
      var more := ObjectLines(names[1..], vs[1..]) + ["}"];
      assert ObjectLines(names, vs) + ["}"] == first + more;
      HoldPrefix(lines, first + more, |first|);
      assert (first + more)[..|first|] == first && (first + more)[|first|..] == more;
      NewKey(fields, names, vs);
      PropertyRead(lines, names[0], vs[0], comma, fields);
      var fields' := With(fields, names[0], vs[0]);
      ObjectLinesRead(lines[|first|..], names[1..], vs[1..], fields');
      ObjectGoesOn(lines, fields, lines[|first|..], fields', fields.0 + names, fields.1 + vs);
    }
  }

  lemma ObjectBlock(joined: string)
    ensures "{" + "\n" + joined + "\n" + "}" + "\n" == "{" + ['\n'] + (joined + "\n" + ("}" + ['\n'] + ""))
  {
  }

  lemma ObjectSplit(names: seq<string>, vs: seq<Value>)
    requires names != [] && |names| == |vs| && AllWellFormed(vs)
    ensures Split(ObjectText(names, PropertyTexts(vs), "\n") + "\n", '\n') == ["{"] + (ObjectLines(names, vs) + ["}"])
  {
    var joined := Joined(Labelled(names, PropertyTexts(vs)), ",\n");
    var tail := "}" + ['\n'] + "";
    ObjectBlock(joined);
    assert "," + "\n" == ",\n";
    SplitFirst("{", joined + "\n" + tail, '\n');
    SplitFields(names, vs, tail);
    SplitFirst("}", "", '\n');
    assert ["}"] + [] == ["}"];
  }

  lemma ObjectRead(names: seq<string>, vs: seq<Value>)
    requires names != [] && |names| == |vs| && AllWellFormed(vs) && Distinct(names)
    ensures var lines := LinesIn(Encoded(ObjectText(names, PropertyTexts(vs), "\n") + "\n"));
            lines != [] && ObjectFrom(lines[1..], ([], [])) == Ok(Container(Named(names), vs))
  {
    ObjectSplit(names, vs);
    LinesInText(ObjectText(names, PropertyTexts(vs), "\n") + "\n");
    NumberedHold(["{"] + (ObjectLines(names, vs) + ["}"]), 1);
    ObjectLinesAre(LinesIn(Encoded(ObjectText(names, PropertyTexts(vs), "\n") + "\n")), names, vs);
  }

  lemma ObjectLinesAre(lines: seq<Line>, names: seq<string>, vs: seq<Value>)
    requires |names| == |vs| && AllWellFormed(vs) && Distinct(names)
    requires Hold(lines, ["{"] + (ObjectLines(names, vs) + ["}"]))
    ensures lines != [] && ObjectFrom(lines[1..], ([], [])) == Ok(Container(Named(names), vs))
  {
    var texts := ["{"] + (ObjectLines(names, vs) + ["}"]);
    HoldPrefix(lines, texts, 1);
    assert texts[1..] == ObjectLines(names, vs) + ["}"];
    assert [] + names == names && [] + vs == vs;
    ObjectLinesRead(lines[1..], names, vs, ([], []));
  }

  // ----------------------------------------------------------- whole files

  lemma EncodedFirst(c: char, rest: string)
    ensures Encoded([c] + rest) == EncodedChar(c) + Encoded(rest)
  {
    assert ([c] + rest)[1..] == rest;
  }

  lemma LayoutStart(open: char, third: char, rest: string)
    requires (open == '[' || open == '{') && (third as int) < 0x80 && !IsSpace(third)
    ensures var bytes := Encoded([open] + (['\n'] + ([third] + rest)));
            IsLineLayout(bytes) && (bytes[0] == 0x7B <==> open == '{')
  {
    EncodedFirst(open, ['\n'] + ([third] + rest));
    EncodedFirst('\n', [third] + rest);
    EncodedFirst(third, rest);
  }

  lemma MinifiedStart(v: Value)
    requires WellFormed(v)
    ensures var text := Minified(v);
            && text != "" && (text[0] as int) < 0x80 && !IsSpace(text[0])
            && (text[0] == '[' || text[0] == '{' ==> |text| > 1)
  {
    MinifiedReads(v);
    if v.Primitive? && v.atom.Number? { NumberTextChars(v.atom.literal); }
  }

  /** The layout test is false of one line of minified text. */
  lemma OneLineIsNotLayout(v: Value)
    requires WellFormed(v)
    ensures !IsLineLayout(Encoded(Minified(v) + "\n"))
  {
    var text := Minified(v) + "\n";
    MinifiedStart(v);
    MinifiedHasNoNewline(v);
    EncodedFirst(text[0], text[1..]);
    assert [text[0]] + text[1..] == text;
    if |Minified(v)| > 1 {
      EncodedFirst(text[1], text[2..]);
      assert [text[1]] + text[2..] == text[1..];
      assert text[1] == Minified(v)[1] && text[1] != '\n';
      assert Encoded(text)[|EncodedChar(text[0])|..] == Encoded(text[1..]);
    }
  }

  lemma JoinedStart(texts: seq<string>, separator: string)
    requires texts != [] && texts[0] != ""
    ensures Joined(texts, separator) != "" && Joined(texts, separator)[0] == texts[0][0]
  {
  }

  lemma ArrayStart(vs: seq<Value>)
    requires AllWellFormed(vs) && vs != []
    ensures var bytes := Encoded(ArrayText(MinifiedAll(vs), "\n") + "\n"); IsLineLayout(bytes) && bytes[0] != 0x7B
  {
    var texts := MinifiedAll(vs);
    MinifiedStart(vs[0]);
    JoinedStart(texts, "," + "\n");
    var joined := Joined(texts, "," + "\n");
    TextStart('[', joined, "\n" + "]" + "\n");
    assert ArrayText(texts, "\n") + "\n" == "[" + "\n" + joined + ("\n" + "]" + "\n");
  }

  lemma TextStart(open: char, joined: string, close: string)
    requires (open == '[' || open == '{') && joined != "" && (joined[0] as int) < 0x80 && !IsSpace(joined[0])
    ensures var bytes := Encoded([open] + "\n" + joined + close);
            IsLineLayout(bytes) && (bytes[0] == 0x7B <==> open == '{')
  {
    assert [open] + "\n" + joined + close == [open] + (['\n'] + ([joined[0]] + (joined[1..] + close)));
    LayoutStart(open, joined[0], joined[1..] + close);
  }

  lemma ObjectStart(names: seq<string>, vs: seq<Value>)
    requires names != [] && |names| == |vs|
    ensures var bytes := Encoded(ObjectText(names, PropertyTexts(vs), "\n") + "\n");
            IsLineLayout(bytes) && bytes[0] == 0x7B
  {
    var fields := Labelled(names, PropertyTexts(vs));
    assert fields[0] == FieldText(names[0], PropertyText(vs[0])) && fields[0][0] == '\"';
    JoinedStart(fields, "," + "\n");
    var joined := Joined(fields, "," + "\n");
    TextStart('{', joined, "\n" + "}" + "\n");
    assert ObjectText(names, PropertyTexts(vs), "\n") + "\n" == "{" + "\n" + joined + ("\n" + "}" + "\n");
  }

  /** Whatever JSON value a document is printed from, reading the file gives the value back, unless the
      document is on one line and longer than one string may be. */
  lemma DocumentRoundTrips(v: Value)
    requires WellFormed(v)
    ensures var bytes := Encoded(DocumentText(v));
            ReadContent(bytes) == if LaidOut(v) || |bytes| <= MAX_STRING_CHARS then Ok(v) else Err(TooLarge)
  {
    if !LaidOut(v) {
      OneLineIsNotLayout(v);
      DecodedEncoded(DocumentText(v));
      DocumentParses(v);
    } else if v.names.Unnamed? {
      ArrayStart(v.items);
      ArrayRead(v.items);
      assert v == Container(Unnamed, v.items);
    } else {
      ObjectStart(v.names.names, v.items);
      ObjectRead(v.names.names, v.items);
      assert v == Container(Named(v.names.names), v.items);
    }
  }
}
