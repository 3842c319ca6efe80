/** `JSON.parse`, but for strings that escape a lone surrogate, and that it undoes `JSON.stringify`. */
module JsonParse {
  import opened Json
  import opened Sequences
  import opened JsonText

  datatype Parsed<T> = Parsed(value: T, rest: string) | Bad

  /** Section 2 of RFC 8259. */
  predicate IsSpace(c: char) {
    c == ' ' || c == '\t' || c == '\n' || c == '\r'
  }

  predicate AllSpace(s: string) {
    forall i :: 0 <= i < |s| ==> IsSpace(s[i])
  }

  function SkipSpace(s: string): (r: string)
    ensures |r| <= |s|
    ensures r != "" ==> !IsSpace(r[0])
  {
    if s != "" && IsSpace(s[0]) then SkipSpace(s[1..]) else s
  }

  predicate StartsWith(s: string, prefix: string) {
    |prefix| <= |s| && s[..|prefix|] == prefix
  }

  predicate IsNumberChar(c: char) {
    Digit(c) || c == '-' || c == '+' || c == '.' || c == 'e' || c == 'E'
  }

  function NumberLength(s: string): (n: nat)
    ensures n <= |s|
  {
    if s != "" && IsNumberChar(s[0]) then 1 + NumberLength(s[1..]) else 0
  }

  function HexValue(c: char): int {
    if Digit(c) then c as int - '0' as int
    else if 'a' <= c <= 'f' then c as int - 'a' as int + 10
    else if 'A' <= c <= 'F' then c as int - 'A' as int + 10
    else -1
  }

  /** The code unit four hexadecimal digits spell, or -1. */
  function HexUnit(s: string): int
    requires |s| >= 4
  {
    var a, b, c, d := HexValue(s[0]), HexValue(s[1]), HexValue(s[2]), HexValue(s[3]);
    if a < 0 || b < 0 || c < 0 || d < 0 then -1 else ((a * 16 + b) * 16 + c) * 16 + d
  }

  function Simple(c: char): Option<char> {
    match c
    case '\"' => Some('\"')
    case '\\' => Some('\\')
    case '/' => Some('/')
    case 'b' => Some('\U{8}')
    case 'f' => Some('\U{C}')
    case 'n' => Some('\n')
    case 'r' => Some('\r')
    case 't' => Some('\t')
    case _ => None
  }

  /** The character an escape stands for, and what follows it.  Section 7 of RFC 8259 also allows the escape of a
      surrogate without its other half, which is no character and is refused here. */
  function ParseEscape(s: string): (r: Parsed<char>)
    requires s != "" && s[0] == '\\'
    ensures r.Parsed? ==> |r.rest| < |s|
  {
    if |s| < 2 then Bad
    else if s[1] != 'u' then
      match Simple(s[1])
      case Some(c) => Parsed(c, s[2..])
      case None => Bad
    else if |s| < 6 then Bad
    else
      var unit := HexUnit(s[2..6]);
      if unit < 0 then Bad
      else if unit < 0xD800 || 0xE000 <= unit < 0x10000 then Parsed(unit as char, s[6..])
      else if unit < 0xDC00 && |s| >= 12 && s[6] == '\\' && s[7] == 'u' then
        var low := HexUnit(s[8..12]);
        if 0xDC00 <= low < 0xE000 then
          Parsed((0x10000 + (unit - 0xD800) * 0x400 + (low - 0xDC00)) as char, s[12..])
        else Bad
      else Bad
  }

  /** A string's characters up to its closing quote. */
  function ParseChars(s: string): (r: Parsed<string>)
    ensures r.Parsed? ==> |r.rest| < |s|
    decreases |s|
  {
    if s == "" || s[0] < ' ' then Bad
    else if s[0] == '\"' then Parsed("", s[1..])
    else
      var first := if s[0] == '\\' then ParseEscape(s) else Parsed(s[0], s[1..]);
      if first.Bad? then Bad else
        var others := ParseChars(first.rest);
        if others.Bad? then Bad else Parsed([first.value] + others.value, others.rest)
  }

  function ParseWord(s: string, word: string, atom: Atom): (r: Parsed<Value>)
    requires word != ""
    ensures r.Parsed? ==> |r.rest| < |s|
  {
    if StartsWith(s, word) then Parsed(Primitive(atom), s[|word|..]) else Bad
  }

  function ParseValue(s: string): (r: Parsed<Value>)
    ensures r.Parsed? ==> |r.rest| < |s|
    decreases |s|, 0
  {
    var t := SkipSpace(s);
    if t == "" then Bad
    else match t[0]
    case '\"' =>
      var chars := ParseChars(t[1..]);
      if chars.Bad? then Bad else Parsed(Primitive(Text(chars.value)), chars.rest)
    case '[' =>
      var u := SkipSpace(t[1..]);
      if u != "" && u[0] == ']' then Parsed(Container(Unnamed, []), u[1..]) else
        var items := ParseItems(t[1..]);
        if items.Bad? then Bad else Parsed(Container(Unnamed, items.value), items.rest)
    case '{' =>
      var u := SkipSpace(t[1..]);
      if u != "" && u[0] == '}' then Parsed(Container(Named([]), []), u[1..]) else
        var fields := ParseFields(t[1..]);
        if fields.Bad? then Bad else Parsed(Container(Named(fields.value.0), fields.value.1), fields.rest)
    case 'n' => ParseWord(t, "null", Null)
    case 't' => ParseWord(t, "true", Bool(true))
    case 'f' => ParseWord(t, "false", Bool(false))
    case _ =>
      var n := NumberLength(t);
      if IsNumberText(t[..n]) then Parsed(Primitive(Number(t[..n])), t[n..]) else Bad
  }

  function ParseItems(s: string): (r: Parsed<seq<Value>>)
    ensures r.Parsed? ==> |r.rest| < |s|
    decreases |s|, 1
  {
    var first := ParseValue(s);
    if first.Bad? then Bad else
      var t := SkipSpace(first.rest);
      if t == "" then Bad
      else if t[0] == ']' then Parsed([first.value], t[1..])
      else if t[0] == ',' then
        var others := ParseItems(t[1..]);
        if others.Bad? then Bad else Parsed([first.value] + others.value, others.rest)
      else Bad
  }

  type Fields = (seq<string>, seq<Value>)

  /** A field before others.  A key written twice keeps its first place and its last value. */
  function WithFirst(name: string, v: Value, others: Fields): Fields {
    if name in others.0 then
      var at := IndexOf(others.0, name);
      if at < |others.1| then
        ([name] + others.0[..at] + others.0[at + 1..], [others.1[at]] + others.1[..at] + others.1[at + 1..])
      else others
    else ([name] + others.0, [v] + others.1)
  }

  function ParseFields(s: string): (r: Parsed<Fields>)
    ensures r.Parsed? ==> |r.rest| < |s|
    decreases |s|, 1
  {
    var q := SkipSpace(s);
    if q == "" || q[0] != '\"' then Bad else
      var name := ParseChars(q[1..]);
      if name.Bad? then Bad else
        var colon := SkipSpace(name.rest);
        if colon == "" || colon[0] != ':' then Bad else
          var v := ParseValue(colon[1..]);
          if v.Bad? then Bad else
            var t := SkipSpace(v.rest);
            if t == "" then Bad
            else if t[0] == '}' then Parsed(([name.value], [v.value]), t[1..])
            else if t[0] == ',' then
              var others := ParseFields(t[1..]);
              if others.Bad? then Bad else Parsed(WithFirst(name.value, v.value, others.value), others.rest)
            else Bad
  }

  /** A whole text: one value, and only space around it. */
  function Parse(text: string): Option<Value> {
    var r := ParseValue(text);
    if r.Parsed? && SkipSpace(r.rest) == "" then Some(r.value) else None
  }

  // ------------------------------------------------------------- round trip

  lemma {:induction false} SpaceSkipped(gap: string, s: string)
    requires AllSpace(gap)
    ensures SkipSpace(gap + s) == SkipSpace(s)
  {
    if gap == "" {
      assert gap + s == s;
    } else {
      assert (gap + s)[1..] == gap[1..] + s;
      SpaceSkipped(gap[1..], s);
    }
  }

  lemma EscapeParses(c: char, rest: string)
    requires Escaped(c)[0] == '\\'
    ensures ParseEscape(Escaped(c) + rest) == Parsed(c, rest)
  {
    var e := Escaped(c);
    var s := e + rest;
    if |e| == 2 {
      assert s[2..] == rest;
    } else {
      assert s[2..6] == ['0', '0', HexDigit(c as int / 16), HexDigit(c as int % 16)] && s[6..] == rest;
    }
  }

  lemma {:induction false} CharsParse(chars: string, rest: string)
    ensures ParseChars(EscapedAll(chars) + "\"" + rest) == Parsed(chars, rest)
  {
    var s := EscapedAll(chars) + "\"" + rest;
    if chars == "" {
      assert s == "\"" + rest && s[1..] == rest;
    } else {
      var e, more := Escaped(chars[0]), EscapedAll(chars[1..]) + "\"" + rest;
      assert s == e + more;
      CharsParse(chars[1..], rest);
      assert [chars[0]] + chars[1..] == chars;
      if e[0] == '\\' {
        EscapeParses(chars[0], more);
      } else {
        assert s[1..] == more;
      }
    }
  }

  /** What may follow a value: nothing that could be read as more of a number. */
  predicate Ends(rest: string) {
    rest == "" || !IsNumberChar(rest[0])
  }

  /** A text is read as a value, whatever follows it. */
  ghost predicate Reads(text: string, v: Value) {
    && text != "" && !IsSpace(text[0]) && text[0] != ']' && text[0] != ','
    && forall rest :: Ends(rest) ==> ParseValue(text + rest) == Parsed(v, rest)
  }

  lemma {:induction false} NumberChars(s: string, rest: string)
    requires (forall i :: 0 <= i < |s| ==> IsNumberChar(s[i])) && Ends(rest)
    ensures NumberLength(s + rest) == |s|
  {
    if s == "" {
      assert s + rest == rest;
    } else {
      assert (s + rest)[1..] == s[1..] + rest;
      NumberChars(s[1..], rest);
    }
  }

  predicate NumberCharsOnly(s: string) {
    forall i :: 0 <= i < |s| ==> IsNumberChar(s[i])
  }

  lemma {:induction false} DigitsThen(s: string)
    ensures NumberCharsOnly(SkipDigits(s)) ==> NumberCharsOnly(s)
  {
    if s != "" && Digit(s[0]) { DigitsThen(s[1..]); }
  }

  lemma ExponentChars(s: string)
    requires IsExponentText(s)
    ensures NumberCharsOnly(s)
  {
    if s != "" {
      DigitsThen(if |s| > 1 && (s[1] == '+' || s[1] == '-') then s[2..] else s[1..]);
    }
  }

  lemma FractionChars(s: string)
    requires IsFractionText(s)
    ensures NumberCharsOnly(s)
  {
    if s != "" && s[0] == '.' {
      ExponentChars(SkipDigits(s[1..]));
      DigitsThen(s[1..]);
    } else {
      ExponentChars(s);
    }
  }

  lemma NumberTextChars(s: string)
    requires IsNumberText(s)
    ensures NumberCharsOnly(s) && (s[0] == '-' || Digit(s[0]))
  {
    var unsigned := if s[0] == '-' then s[1..] else s;
    FractionChars(if unsigned[0] == '0' then unsigned[1..] else SkipDigits(unsigned));
    DigitsThen(unsigned);
  }

  lemma NumberReads(literal: string, rest: string)
    requires IsNumberText(literal) && Ends(rest)
    ensures ParseValue(literal + rest) == Parsed(Primitive(Number(literal)), rest)
  {
    NumberTextChars(literal);
    NumberChars(literal, rest);
    var s := literal + rest;
    assert s[..|literal|] == literal && s[|literal|..] == rest;
  }

  lemma TextReads(chars: string, rest: string)
    ensures ParseValue(Quoted(chars) + rest) == Parsed(Primitive(Text(chars)), rest)
  {
    CharsParse(chars, rest);
    assert (Quoted(chars) + rest)[1..] == EscapedAll(chars) + "\"" + rest;
  }

  lemma WordReads(a: Atom, rest: string)
    requires a.Null? || a.Bool?
    ensures ParseValue(AtomText(a) + rest) == Parsed(Primitive(a), rest)
  {
    var s := AtomText(a) + rest;
    assert s[..|AtomText(a)|] == AtomText(a) && s[|AtomText(a)|..] == rest;
  }

  lemma AtomReads(a: Atom)
    requires WellFormed(Primitive(a))
    ensures Reads(AtomText(a), Primitive(a))
  {
    if a.Number? { NumberTextChars(a.literal); }
    forall rest | Ends(rest)
      ensures ParseValue(AtomText(a) + rest) == Parsed(Primitive(a), rest)
    {
      match a
      case Number(literal) => NumberReads(literal, rest);
      case Text(chars) => TextReads(chars, rest);
      case _ => WordReads(a, rest);
    }
  }

  /** Texts read as values, each in its place. */
  ghost predicate ReadAll(texts: seq<string>, vs: seq<Value>) {
    |texts| == |vs| && forall i :: 0 <= i < |texts| ==> Reads(texts[i], vs[i])
  }

  lemma ReadInGap(gap: string, text: string, v: Value, rest: string)
    requires AllSpace(gap) && Reads(text, v) && Ends(rest)
    ensures ParseValue(gap + (text + rest)) == Parsed(v, rest)
    ensures SkipSpace(gap + (text + rest)) == text + rest
  {
    SpaceSkipped(gap, text + rest);
    assert SkipSpace(text + rest) == text + rest;
    assert ParseValue(text + rest) == Parsed(v, rest);
  }

  lemma GapThen(gap: string, c: char, rest: string)
    requires AllSpace(gap) && !IsSpace(c) && !IsNumberChar(c)
    ensures Ends(gap + ([c] + rest)) && SkipSpace(gap + ([c] + rest)) == [c] + rest
  {
    SpaceSkipped(gap, [c] + rest);
    if gap != "" { assert (gap + ([c] + rest))[0] == gap[0]; }
  }

  lemma LastItem(s: string, v: Value, gap: string, rest: string)
    requires ParseValue(s) == Parsed(v, gap + ([']'] + rest)) && AllSpace(gap)
    ensures ParseItems(s) == Parsed([v], rest)
  {
    GapThen(gap, ']', rest);
    assert ([']'] + rest)[1..] == rest;
  }

  lemma NextItem(s: string, v: Value, more: string)
    requires ParseValue(s) == Parsed(v, [','] + more)
    ensures ParseItems(s) ==
            if ParseItems(more).Bad? then Bad else Parsed([v] + ParseItems(more).value, ParseItems(more).rest)
  {
    assert ([','] + more)[1..] == more;
  }

  function ItemsText(texts: seq<string>, gap: string, rest: string): string {
    gap + Joined(texts, "," + gap) + gap + "]" + rest
  }

  lemma ItemsTextStep(texts: seq<string>, gap: string, rest: string)
    requires texts != []
    ensures ItemsText(texts, gap, rest) ==
            gap + (texts[0] + if |texts| == 1 then gap + ([']'] + rest) else [','] + ItemsText(texts[1..], gap, rest))
  {
  }

  /** An array's items, one after another or each on a line of its own, and its close. */
  lemma {:induction false} ItemsParse(texts: seq<string>, vs: seq<Value>, gap: string, rest: string)
    requires texts != [] && ReadAll(texts, vs) && AllSpace(gap)
    ensures ParseItems(ItemsText(texts, gap, rest)) == Parsed(vs, rest)
    decreases |texts|
  {
    var s := ItemsText(texts, gap, rest);
    ItemsTextStep(texts, gap, rest);
    if |texts| == 1 {
      GapThen(gap, ']', rest);
      ReadInGap(gap, texts[0], vs[0], gap + ([']'] + rest));
      LastItem(s, vs[0], gap, rest);
      assert [vs[0]] == vs;
    } else {
      var more := ItemsText(texts[1..], gap, rest);
      ReadInGap(gap, texts[0], vs[0], [','] + more);
      NextItem(s, vs[0], more);
      ItemsParse(texts[1..], vs[1..], gap, rest);
      assert [vs[0]] + vs[1..] == vs;
    }
  }

  /** A property's text: its key, a colon and its value's text. */
  function FieldText(name: string, text: string): string {
    Quoted(name) + ":" + text
  }

  lemma NameReads(gap: string, name: string, text: string, rest: string)
    requires AllSpace(gap)
    ensures var q := SkipSpace(gap + (FieldText(name, text) + rest));
            && q != "" && q[0] == '\"'
            && ParseChars(q[1..]) == Parsed(name, [':'] + (text + rest))
            && SkipSpace([':'] + (text + rest)) == [':'] + (text + rest)
            && ([':'] + (text + rest))[1..] == text + rest
  {
    var s, after := FieldText(name, text) + rest, [':'] + (text + rest);
    FieldTextIs(name, text, rest);
    SpaceSkipped(gap, s);
    CharsParse(name, after);
    assert after[1..] == text + rest;
  }

  lemma FieldTextIs(name: string, text: string, rest: string)
    ensures var s := FieldText(name, text) + rest;
            s != "" && s[0] == '\"' && s[1..] == EscapedAll(name) + "\"" + ([':'] + (text + rest))
  {
  }

  function FieldsText(names: seq<string>, texts: seq<string>, gap: string, rest: string): string {
    gap + Joined(Labelled(names, texts), "," + gap) + gap + "}" + rest
  }

  lemma FieldsTextStep(names: seq<string>, texts: seq<string>, gap: string, rest: string)
    requires names != [] && |names| == |texts|
    ensures FieldsText(names, texts, gap, rest) ==
            gap + (FieldText(names[0], texts[0]) +
                   if |names| == 1 then gap + (['}'] + rest) else [','] + FieldsText(names[1..], texts[1..], gap, rest))
  {
    var fields := Labelled(names, texts);
    assert fields[1..] == Labelled(names[1..], texts[1..]);
  }

  lemma LastField(s: string, name: string, text: string, v: Value, gap: string, rest: string)
    requires s == gap + (FieldText(name, text) + (gap + (['}'] + rest)))
    requires Reads(text, v) && AllSpace(gap)
    ensures ParseFields(s) == Parsed(([name], [v]), rest)
  {
    var after := gap + (['}'] + rest);
    NameReads(gap, name, text, after);
    GapThen(gap, '}', rest);
    assert ParseValue(text + after) == Parsed(v, after);
    assert (['}'] + rest)[1..] == rest;
  }

  lemma NextField(s: string, name: string, text: string, v: Value, gap: string, more: string)
    requires s == gap + (FieldText(name, text) + ([','] + more))
    requires Reads(text, v) && AllSpace(gap)
    ensures ParseFields(s) ==
            if ParseFields(more).Bad? then Bad
            else Parsed(WithFirst(name, v, ParseFields(more).value), ParseFields(more).rest)
  {
    var after := [','] + more;
    NameReads(gap, name, text, after);
    assert ParseValue(text + after) == Parsed(v, after);
    assert after[1..] == more;
  }

  /** An object's fields, one after another or each on a line of its own, and its close. */
  lemma {:induction false} FieldsParse(names: seq<string>, texts: seq<string>, vs: seq<Value>, gap: string,
                                       rest: string)
    requires names != [] && |names| == |texts| && Distinct(names) && ReadAll(texts, vs) && AllSpace(gap)
    ensures ParseFields(FieldsText(names, texts, gap, rest)) == Parsed((names, vs), rest)
    decreases |names|
  {
    FieldsTextStep(names, texts, gap, rest);
    if |names| == 1 {
      LastField(FieldsText(names, texts, gap, rest), names[0], texts[0], vs[0], gap, rest);
      assert [vs[0]] == vs && [names[0]] == names;
    } else {
      var more := FieldsText(names[1..], texts[1..], gap, rest);
      NextField(FieldsText(names, texts, gap, rest), names[0], texts[0], vs[0], gap, more);
      FieldsParse(names[1..], texts[1..], vs[1..], gap, rest);
      FirstOfFields(names, vs);
    }
  }

  lemma FirstOfFields(names: seq<string>, vs: seq<Value>)
    requires names != [] && |names| == |vs| && Distinct(names)
    ensures WithFirst(names[0], vs[0], (names[1..], vs[1..])) == (names, vs)
  {
    assert names[0] !in names[1..];
    assert [vs[0]] + vs[1..] == vs && [names[0]] + names[1..] == names;
  }

  function ArrayText(texts: seq<string>, gap: string): string {
    "[" + gap + Joined(texts, "," + gap) + gap + "]"
  }

  function ObjectText(names: seq<string>, texts: seq<string>, gap: string): string {
    "{" + gap + Joined(Labelled(names, texts), "," + gap) + gap + "}"
  }

  lemma OpenArray(inside: string, vs: seq<Value>, rest: string)
    requires SkipSpace(inside) != "" && SkipSpace(inside)[0] != ']' && ParseItems(inside) == Parsed(vs, rest)
    ensures ParseValue(['['] + inside) == Parsed(Container(Unnamed, vs), rest)
  {
    assert (['['] + inside)[1..] == inside;
  }

  lemma OpenObject(inside: string, fields: Fields, rest: string)
    requires SkipSpace(inside) != "" && SkipSpace(inside)[0] != '}' && ParseFields(inside) == Parsed(fields, rest)
    ensures ParseValue(['{'] + inside) == Parsed(Container(Named(fields.0), fields.1), rest)
  {
    ObjectOpens(['{'] + inside, inside, fields, rest);
  }

  lemma ObjectOpens(s: string, inside: string, fields: Fields, rest: string)
    requires s != "" && s[0] == '{' && s[1..] == inside
    requires SkipSpace(inside) != "" && SkipSpace(inside)[0] != '}' && ParseFields(inside) == Parsed(fields, rest)
    ensures ParseValue(s) == Parsed(Container(Named(fields.0), fields.1), rest)
  {
    assert SkipSpace(s) == s;
  }

  lemma ArrayTextIs(texts: seq<string>, gap: string, rest: string)
    ensures ArrayText(texts, gap) + rest == ['['] + ItemsText(texts, gap, rest)
  {
  }

  lemma ObjectTextIs(names: seq<string>, texts: seq<string>, gap: string, rest: string)
    ensures ObjectText(names, texts, gap) + rest == ['{'] + FieldsText(names, texts, gap, rest)
  {
  }

  lemma ItemsStart(texts: seq<string>, gap: string, rest: string)
    requires texts != [] && texts[0] != "" && !IsSpace(texts[0][0]) && AllSpace(gap)
    ensures SkipSpace(ItemsText(texts, gap, rest)) != "" && SkipSpace(ItemsText(texts, gap, rest))[0] == texts[0][0]
  {
    ItemsTextStep(texts, gap, rest);
    var s := texts[0] + if |texts| == 1 then gap + ([']'] + rest) else [','] + ItemsText(texts[1..], gap, rest);
    assert s[0] == texts[0][0];
    SpaceSkipped(gap, s);
  }

  lemma FieldsStart(names: seq<string>, texts: seq<string>, gap: string, rest: string)
    requires names != [] && |names| == |texts| && AllSpace(gap)
    ensures SkipSpace(FieldsText(names, texts, gap, rest)) != "" &&
            SkipSpace(FieldsText(names, texts, gap, rest))[0] == '\"'
  {
    FieldsTextStep(names, texts, gap, rest);
    var s := FieldText(names[0], texts[0]) +
             if |names| == 1 then gap + (['}'] + rest) else [','] + FieldsText(names[1..], texts[1..], gap, rest);
    assert s[0] == '\"';
    SpaceSkipped(gap, s);
  }

  lemma ArrayTextReads(texts: seq<string>, vs: seq<Value>, gap: string, rest: string)
    requires texts != [] && ReadAll(texts, vs) && AllSpace(gap)
    ensures ParseValue(ArrayText(texts, gap) + rest) == Parsed(Container(Unnamed, vs), rest)
  {
    ArrayTextIs(texts, gap, rest);
    ItemsParse(texts, vs, gap, rest);
    ItemsStart(texts, gap, rest);
    OpenArray(ItemsText(texts, gap, rest), vs, rest);
  }

  lemma ObjectTextReads(names: seq<string>, texts: seq<string>, vs: seq<Value>, gap: string, rest: string)
    requires names != [] && |names| == |texts| && Distinct(names) && ReadAll(texts, vs) && AllSpace(gap)
    ensures ParseValue(ObjectText(names, texts, gap) + rest) == Parsed(Container(Named(names), vs), rest)
  {
    ObjectTextIs(names, texts, gap, rest);
    FieldsParse(names, texts, vs, gap, rest);
    FieldsStart(names, texts, gap, rest);
    OpenObject(FieldsText(names, texts, gap, rest), (names, vs), rest);
  }

  /** An array's text, its items on one line or on lines of their own. */
  lemma ArrayReads(texts: seq<string>, vs: seq<Value>, gap: string)
    requires texts != [] && ReadAll(texts, vs) && AllSpace(gap)
    ensures Reads(ArrayText(texts, gap), Container(Unnamed, vs))
  {
    forall rest | Ends(rest)
      ensures ParseValue(ArrayText(texts, gap) + rest) == Parsed(Container(Unnamed, vs), rest)
    {
      ArrayTextReads(texts, vs, gap, rest);
    }
  }

  /** An object's text, its fields on one line or on lines of their own. */
  lemma ObjectReads(names: seq<string>, texts: seq<string>, vs: seq<Value>, gap: string)
    requires names != [] && |names| == |texts| && Distinct(names) && ReadAll(texts, vs) && AllSpace(gap)
    ensures Reads(ObjectText(names, texts, gap), Container(Named(names), vs))
  {
    forall rest | Ends(rest)
      ensures ParseValue(ObjectText(names, texts, gap) + rest) == Parsed(Container(Named(names), vs), rest)
    {
      ObjectTextReads(names, texts, vs, gap, rest);
    }
  }

  lemma EmptyReads()
    ensures Reads("[]", Container(Unnamed, [])) && Reads("{}", Container(Named([]), []))
  {
    forall rest: string | Ends(rest)
      ensures ParseValue("[]" + rest) == Parsed(Container(Unnamed, []), rest)
      ensures ParseValue("{}" + rest) == Parsed(Container(Named([]), []), rest)
    {
      assert ("[]" + rest)[1..] == "]" + rest && ("]" + rest)[1..] == rest;
      assert ("{}" + rest)[1..] == "}" + rest && ("}" + rest)[1..] == rest;
    }
  }

  lemma MinifiedContainer(names: Names, items: seq<Value>)
    requires items != []
    ensures Minified(Container(names, items)) ==
            if names.Unnamed? then ArrayText(MinifiedAll(items), "")
              else ObjectText(names.names, MinifiedAll(items), "")
  {
    assert "," + "" == ",";
  }

  lemma MinifiedEmpty(names: Names)
    requires names == Unnamed || names == Named([])
    ensures Reads(Minified(Container(names, [])), Container(names, []))
  {
    EmptyReads();
    assert "[" + "" + "]" == "[]" && "{" + "" + "}" == "{}";
    assert Labelled([], []) == [] && MinifiedAll([]) == [];
  }

  /** What `JSON.stringify` prints for a value is read as that value. */
  lemma {:induction false} MinifiedReads(v: Value)
    requires WellFormed(v)
    ensures Reads(Minified(v), v)
    decreases v, 1
  {
    if v.Primitive? {
      AtomReads(v.atom);
    } else if v.items == [] {
      if v.names.Named? { assert v.names.names == []; }
      MinifiedEmpty(v.names);
    } else {
      AllMinifiedRead(v.items);
      MinifiedContainer(v.names, v.items);
      assert v == Container(v.names, v.items);
      if v.names.Unnamed? {
        ArrayReads(MinifiedAll(v.items), v.items, "");
      } else {
        ObjectReads(v.names.names, MinifiedAll(v.items), v.items, "");
      }
    }
  }

  lemma {:induction false} AllMinifiedRead(vs: seq<Value>)
    requires AllWellFormed(vs)
    ensures ReadAll(MinifiedAll(vs), vs)
    decreases vs, 0
  {
    if vs != [] {
      MinifiedReads(vs[0]);
      AllMinifiedRead(vs[1..]);
    }
  }

  /** A text read as a value, with only space around it. */
  lemma ReadsParses(gap: string, text: string, v: Value, after: string)
    requires Reads(text, v) && AllSpace(gap) && AllSpace(after)
    ensures Parse(gap + text + after) == Some(v)
  {
    assert Ends(after);
    assert gap + text + after == gap + (text + after);
    ReadInGap(gap, text, v, after);
    SpaceSkipped(after, "");
    assert after + "" == after;
  }

  lemma MinifiedParses(v: Value)
    requires WellFormed(v)
    ensures Parse(Minified(v)) == Some(v)
  {
    MinifiedReads(v);
    ReadsParses("", Minified(v), v, "");
    assert "" + Minified(v) + "" == Minified(v);
  }
}
