/** Which files in the line layout are documents, of what value, and where the others stop being one. */
module DocumentGrammar {
  import opened Json
  import opened Sequences
  import opened JsonParse
  import opened Utf8
  import opened DocumentFile
  import opened DocumentReader
  import opened DocumentRoundTrip

  // -------------------------------------------------------------- the grammar

  /** The texts of a file's lines. */
  function TextsOf(content: Bytes): seq<string> {
    DecodedAll(Split(content, NEWLINE))
  }

  /** The line holds the value's text and nothing else, but for one comma at its end. */
  predicate HoldsValue(text: string, v: Value) {
    Parse(if text != "" && text[|text| - 1] == ',' then text[..|text| - 1] else text) == Some(v)
  }

  /** The lines from this one hold the values one to a line, and then comes a closer. */
  predicate AreElements(texts: seq<string>, at: nat, vs: seq<Value>, closers: set<string>)
    decreases |vs|
  {
    && at < |texts|
    && if vs == [] then texts[at] in closers
       else texts[at] !in closers && HoldsValue(texts[at], vs[0]) && AreElements(texts, at + 1, vs[1..], closers)
  }

  /** White space and line ends, as ECMA-262 lists them. */
  predicate IsWhite(c: char) {
    c as int in {0x9, 0xA, 0xB, 0xC, 0xD, 0x20, 0xA0, 0x1680, 0x2000, 0x2001, 0x2002, 0x2003, 0x2004, 0x2005, 0x2006,
                 0x2007, 0x2008, 0x2009, 0x200A, 0x2028, 0x2029, 0x202F, 0x205F, 0x3000, 0xFEFF}
  }

  ghost predicate BlankFrom(texts: seq<string>, at: nat) {
    forall i :: at <= i < |texts| ==> OnlyWhite(texts[i])
  }

  predicate OnlyWhite(text: string) {
    forall c :: c in text ==> IsWhite(c)
  }

  /** An array's document: a line for each element, a line with only the bracket, and blank lines. */
  ghost predicate IsArrayDocument(texts: seq<string>, vs: seq<Value>) {
    AreElements(texts, 1, vs, {"]"}) && BlankFrom(texts, |vs| + 2)
  }

  /** The line begins with a string, closed at `end`, and a colon. */
  predicate IsProperty(text: string, end: nat, key: string) {
    1 <= end && end + 1 < |text| && text[0] == '\"' && ParseChars(text[1..end + 1]) == Parsed(key, "") &&
    text[end + 1] == ':'
  }

  /** One property: a line with its value, or a line with a bracket, a line for each element and a line that closes. */
  ghost predicate IsEntry(texts: seq<string>, at: nat, to: nat, key: string, v: Value) {
    && at < to <= |texts|
    && exists end: nat :: IsProperty(texts[at], end, key) && IsValueOn(texts, at, to, texts[at][end + 2..], v)
  }

  ghost predicate IsValueOn(texts: seq<string>, at: nat, to: nat, rest: string, v: Value)
    requires at < to <= |texts|
  {
    if rest == "[" then
      && v.Container? && v.names.Unnamed? && to == at + |v.items| + 2
      && AreElements(texts, at + 1, v.items, {"]", "],"})
    else to == at + 1 && HoldsValue(rest, v)
  }

  /** The lines from this one are properties, then one with only the brace, and blank ones. */
  ghost predicate AreEntries(texts: seq<string>, at: nat, keys: seq<string>, vs: seq<Value>)
    requires |keys| == |vs|
    decreases |keys|
  {
    if keys == [] then at < |texts| && texts[at] == "}" && BlankFrom(texts, at + 1)
    else at < |texts| && texts[at] != "}" && exists to: nat ::
           IsEntry(texts, at, to, keys[0], vs[0]) && AreEntries(texts, to, keys[1..], vs[1..])
  }

  /** The object has each key once, where it is first written, with the value last written for it. */
  ghost predicate IsObjectOf(keys: seq<string>, vs: seq<Value>, names: seq<string>, items: seq<Value>) {
    && |keys| == |vs| && |names| == |items| && names == Unique(keys)
    && forall i, n :: 0 <= i < |names| && 0 <= n < |keys| && names[i] == keys[n] && names[i] !in keys[n + 1..] ==>
         items[i] == vs[n]
  }

  ghost predicate IsObjectDocument(texts: seq<string>, names: seq<string>, items: seq<Value>) {
    exists keys: seq<string>, vs: seq<Value> ::
      |keys| == |vs| && AreEntries(texts, 1, keys, vs) && IsObjectOf(keys, vs, names, items)
  }

  // ------------------------------------------------------------ one line

  lemma HoldsIsParsed(line: Line, text: string, v: Value)
    ensures ParsedLine(line, WithoutTrailingComma(text)) == Ok(v) <==> HoldsValue(text, v)
  {
  }

  lemma {:induction false} SkippedToNothing(s: string)
    ensures SkipSpace(s) == "" <==> AllSpace(s)
  {
    if s != "" {
      SkippedToNothing(s[1..]);
      if AllSpace(s) { assert forall i :: 0 <= i < |s[1..]| ==> s[1..][i] == s[i + 1]; }
      if IsSpace(s[0]) && AllSpace(s[1..]) { assert forall i :: 1 <= i < |s| ==> s[i] == s[1..][i - 1]; }
    }
  }

  ghost predicate IsEnd(part: string, whole: string) {
    |part| <= |whole| && part == whole[|whole| - |part|..]
  }

  lemma EndOfEnd(a: string, b: string, c: string)
    requires IsEnd(a, b) && IsEnd(b, c)
    ensures IsEnd(a, c)
  {
  }

  lemma EscapeLeavesEnd(s: string)
    requires s != "" && s[0] == '\\' && ParseEscape(s).Parsed?
    ensures IsEnd(ParseEscape(s).rest, s)
  {
  }

  lemma {:induction false} CharsLeaveEnd(s: string)
    ensures ParseChars(s).Parsed? ==> IsEnd(ParseChars(s).rest, s)
    decreases |s|
  {
    if s != "" && s[0] != '\"' && ParseChars(s).Parsed? {
      if s[0] == '\\' { EscapeLeavesEnd(s); }
      var first := if s[0] == '\\' then ParseEscape(s) else Parsed(s[0], s[1..]);
      CharsLeaveEnd(first.rest);
      EndOfEnd(ParseChars(first.rest).rest, first.rest, s);
    }
  }

  /** A text that ends in a quote and parses as a string is one string and nothing after it. */
  lemma WholeString(text: string, key: string)
    requires |text| > 1 && text[0] == '\"' && text[|text| - 1] == '\"'
    ensures Parse(text) == Some(Primitive(Text(key))) <==> ParseChars(text[1..]) == Parsed(key, "")
  {
    var chars := ParseChars(text[1..]);
    CharsLeaveEnd(text[1..]);
    if chars.Parsed? {
      SkippedToNothing(chars.rest);
      if chars.rest != "" {
        assert chars.rest[|chars.rest| - 1] == text[|text| - 1];
      }
    }
  }

  /** Four hexadecimal digits are plain, so scanning goes over them. */
  lemma HexPassed(text: string, at: nat, digits: string)
    requires at + 4 <= |text| && digits == text[at..at + 4] && HexUnit(digits) >= 0
    ensures KeyEnd(text, at) == KeyEnd(text, at + 4)
  {
    forall i | at <= i < at + 4
      ensures text[i] != '\"' && text[i] != '\\'
    {
      assert text[i] == digits[i - at];
    }
    PlainSkipped(text, at, 4);
  }

  lemma PartOfPart(text: string, at: nat, to: nat, i: nat, j: nat)
    requires at <= to <= |text| && i <= j <= to - at
    ensures text[at..to][i..j] == text[at + i..at + j]
  {
    var whole := text[at..to];
    assert forall k :: i <= k < j ==> whole[k] == text[at + k];
    assert |whole[i..j]| == |text[at + i..at + j]|;
    assert forall k :: 0 <= k < j - i ==> whole[i..j][k] == text[at + i..at + j][k];
  }

  /** How long an escape is, and where its digits are. */
  lemma EscapeLength(s: string) returns (n: nat)
    requires s != "" && s[0] == '\\' && ParseEscape(s).Parsed?
    ensures (n == 2 || n == 6 || n == 12) && n <= |s| && ParseEscape(s).rest == s[n..]
    ensures n >= 6 ==> HexUnit(s[2..6]) >= 0
    ensures n == 12 ==> s[6] == '\\' && HexUnit(s[8..12]) >= 0
  {
    n := |s| - |ParseEscape(s).rest|;
  }

  lemma BackslashPassed(text: string, at: nat)
    requires at < |text| && text[at] == '\\'
    ensures KeyEnd(text, at) == KeyEnd(text, at + 2)
  {
  }

  /** An escape is passed by going two characters on and over what is plain. */
  lemma EscapePassed(text: string, at: nat, end: nat)
    requires at <= end < |text| && text[at] == '\\' && ParseEscape(text[at..end + 1]).Parsed?
    ensures var rest := ParseEscape(text[at..end + 1]).rest;
            var next := end + 1 - |rest|;
            at < next <= |text| && rest == text[next..end + 1] && KeyEnd(text, at) == KeyEnd(text, next)
  {
    var s := text[at..end + 1];
    var n := EscapeLength(s);
    BackslashPassed(text, at);
    if n >= 6 {
      PartOfPart(text, at, end + 1, 2, 6);
      HexPassed(text, at + 2, s[2..6]);
      if n == 12 {
        assert s[6] == text[at + 6];
        BackslashPassed(text, at + 6);
        PartOfPart(text, at, end + 1, 8, 12);
        HexPassed(text, at + 8, s[8..12]);
      }
    }
    PartOfPart(text, at, end + 1, n, |s|);
  }

  /** Scanning a string's characters ends at the quote that closes it. */
  lemma {:induction false} KeyEndOfString(text: string, at: nat, end: nat, key: string)
    requires at <= end < |text| && ParseChars(text[at..end + 1]) == Parsed(key, "")
    ensures KeyEnd(text, at) == end
    decreases end - at
  {
    var s := text[at..end + 1];
    if s[0] != '\"' {
      var first := if s[0] == '\\' then ParseEscape(s) else Parsed(s[0], s[1..]);
      if s[0] == '\\' { EscapePassed(text, at, end); }
      var next: nat := end + 1 - |first.rest|;
      assert first.rest == text[next..end + 1];
      KeyEndOfString(text, next, end, ParseChars(first.rest).value);
    }
  }

  lemma PropertyIsSplit(line: Line, end: nat, key: string)
    requires IsProperty(line.text, end, key)
    ensures KeyAndRest(line) == Ok((key, line.text[end + 2..]))
  {
    var text := line.text;
    KeyEndOfString(text, 1, end, key);
    CharsEndInQuote(text[1..end + 1]);
    assert text[..end + 1][1..] == text[1..end + 1];
    WholeString(text[..end + 1], key);
  }

  lemma {:induction false} CharsEndInQuote(s: string)
    requires ParseChars(s).Parsed? && ParseChars(s).rest == ""
    ensures s != "" && s[|s| - 1] == '\"'
    decreases |s|
  {
    if s[0] != '\"' {
      if s[0] == '\\' { EscapeLeavesEnd(s); }
      var first := if s[0] == '\\' then ParseEscape(s) else Parsed(s[0], s[1..]);
      CharsEndInQuote(first.rest);
      assert first.rest[|first.rest| - 1] == s[|s| - 1];
    }
  }

  lemma {:induction false} KeyEndStops(text: string, at: nat)
    ensures at <= KeyEnd(text, at) && (KeyEnd(text, at) < |text| ==> text[KeyEnd(text, at)] == '\"')
    decreases |text| - at
  {
    if at < |text| && text[at] != '\"' { KeyEndStops(text, at + if text[at] == '\\' then 2 else 1); }
  }

  lemma SplitIsProperty(line: Line) returns (end: nat)
    requires KeyAndRest(line).Ok?
    ensures IsProperty(line.text, end, KeyAndRest(line).value.0)
    ensures KeyAndRest(line).value.1 == line.text[end + 2..]
  {
    var text := line.text;
    end := KeyEnd(text, 1);
    KeyEndStops(text, 1);
    assert text[..end + 1][1..] == text[1..end + 1];
    WholeString(text[..end + 1], KeyAndRest(line).value.0);
  }

  // ------------------------------------------------------------- several lines

  /** The lines are those of the texts from this one. */
  ghost predicate Follow(lines: seq<Line>, texts: seq<string>, at: nat) {
    |lines| + at == |texts| && forall i :: 0 <= i < |lines| ==> lines[i].text == texts[at + i]
  }

  lemma FollowLater(lines: seq<Line>, texts: seq<string>, at: nat, n: nat)
    requires Follow(lines, texts, at) && n <= |lines|
    ensures Follow(lines[n..], texts, at + n)
  {
  }

  lemma BlankIsWhite(text: string)
    ensures Blank(text) <==> OnlyWhite(text)
  {
    if OnlyWhite(text) {
      forall i | 0 <= i < |text|
        ensures Trimmed(text[i])
      {
        assert text[i] in text;
      }
    }
  }

  lemma {:induction false} NothingAfterExactly(lines: seq<Line>, texts: seq<string>, at: nat, v: Value)
    requires Follow(lines, texts, at)
    ensures NothingAfter(lines, v).Ok? <==> BlankFrom(texts, at)
    ensures NothingAfter(lines, v).Ok? ==> NothingAfter(lines, v) == Ok(v)
    decreases |lines|
  {
    if lines != [] {
      FollowLater(lines, texts, at, 1);
      NothingAfterExactly(lines[1..], texts, at + 1, v);
      assert lines[0].text == texts[at];
      BlankIsWhite(texts[at]);
    }
  }

  ghost predicate ElementsGive(lines: seq<Line>, closers: set<string>, vs: seq<Value>) {
    ElementsAre(lines, closers, vs, if |vs| < |lines| then lines[|vs| + 1..] else [])
  }

  lemma OneMoreGiven(lines: seq<Line>, closers: set<string>, vs: seq<Value>)
    requires lines != [] && vs != [] && lines[0].text !in closers
    ensures ElementsGive(lines, closers, vs) <==>
            HoldsValue(lines[0].text, vs[0]) && ElementsGive(lines[1..], closers, vs[1..])
  {
    HoldsIsParsed(lines[0], lines[0].text, vs[0]);
    assert |vs| < |lines| ==> lines[1..][|vs[1..]| + 1..] == lines[|vs| + 1..];
    assert [vs[0]] + vs[1..] == vs;
    if ElementsGive(lines, closers, vs) {
      assert ([ParsedLine(lines[0], WithoutTrailingComma(lines[0].text)).value]
              + ElementsUntil(lines[1..], closers).value.0)[1..] == vs[1..];
    }
  }

  /** Elements are read exactly where the lines hold them up to a closer, and only what is read for them is taken. */
  lemma {:induction false} ElementsExactly(lines: seq<Line>, texts: seq<string>, at: nat, closers: set<string>,
                                           vs: seq<Value>)
    requires Follow(lines, texts, at)
    ensures AreElements(texts, at, vs, closers) <==> ElementsGive(lines, closers, vs)
    decreases |lines|
  {
    if lines != [] {
      assert lines[0].text == texts[at];
      if texts[at] !in closers && vs != [] {
        FollowLater(lines, texts, at, 1);
        ElementsExactly(lines[1..], texts, at + 1, closers, vs[1..]);
        OneMoreGiven(lines, closers, vs);
      }
    }
  }

  lemma {:induction false} GivenAtMost(lines: seq<Line>, closers: set<string>)
    ensures var r := ElementsUntil(lines, closers);
            r.Ok? ==> |r.value.0| < |lines| && r.value.1 == lines[|r.value.0| + 1..]
  {
    if lines != [] { GivenAtMost(lines[1..], closers); }
  }

  /** The fields after these properties too. */
  function Merged(fields: Fields, keys: seq<string>, vs: seq<Value>): Fields
    requires |keys| == |vs|
    decreases |keys|
  {
    if keys == [] then fields else Merged(WithProperty(fields, keys[0], vs[0]), keys[1..], vs[1..])
  }

  function AsObject(fields: Fields): Value {
    Container(Named(fields.0), fields.1)
  }

  lemma {:induction false} MergedOneMore(fields: Fields, keys: seq<string>, vs: seq<Value>, key: string, v: Value)
    requires |keys| == |vs|
    ensures Merged(fields, keys + [key], vs + [v]) == WithProperty(Merged(fields, keys, vs), key, v)
    decreases |keys|
  {
    if keys == [] {
      assert keys + [key] == [key] && vs + [v] == [v];
      assert [key][1..] == [] && [v][1..] == [];
    } else {
      assert (keys + [key])[1..] == keys[1..] + [key] && (vs + [v])[1..] == vs[1..] + [v];
      MergedOneMore(WithProperty(fields, keys[0], vs[0]), keys[1..], vs[1..], key, v);
    }
  }

  lemma PropertyDefined(keys: seq<string>, vs: seq<Value>, fields: Fields, key: string, v: Value)
    requires IsObjectOf(keys, vs, fields.0, fields.1)
    ensures var (names, items) := WithProperty(fields, key, v); IsObjectOf(keys + [key], vs + [v], names, items)
  {
    var (names, items) := WithProperty(fields, key, v);
    var keys', vs' := keys + [key], vs + [v];
    UniqueMore(keys, key);
    forall i, n | 0 <= i < |names| && 0 <= n < |keys'| && names[i] == keys'[n] && names[i] !in keys'[n + 1..]
      ensures items[i] == vs'[n]
    {
      if n < |keys| {
        assert keys'[n + 1..] == keys[n + 1..] + [key];
        assert names[i] != key && i < |fields.0| && names[i] == fields.0[i];
        assert fields.1[i] == vs[n];
      }
    }
  }

  /** Properties read one after another make the object in which a later one replaces an earlier of the same key. */
  lemma {:induction false} MergedIsObject(keys: seq<string>, vs: seq<Value>)
    requires |keys| == |vs|
    ensures var (names, items) := Merged(([], []), keys, vs); IsObjectOf(keys, vs, names, items)
    decreases |keys|
  {
    if keys != [] {
      var n := |keys| - 1;
      assert keys == keys[..n] + [keys[n]] && vs == vs[..n] + [vs[n]];
      MergedOneMore(([], []), keys[..n], vs[..n], keys[n], vs[n]);
      MergedIsObject(keys[..n], vs[..n]);
      PropertyDefined(keys[..n], vs[..n], Merged(([], []), keys[..n], vs[..n]), keys[n], vs[n]);
    }
  }

  lemma {:induction false} LastPlace(keys: seq<string>, key: string) returns (n: nat)
    requires key in keys
    ensures n < |keys| && keys[n] == key && key !in keys[n + 1..]
  {
    n := |keys| - 1;
    if keys[n] != key {
      var front := keys[..n];
      assert keys == front + [keys[n]];
      n := LastPlace(front, key);
      assert keys[n + 1..] == front[n + 1..] + [keys[|keys| - 1]];
    }
  }

  lemma ObjectIsOne(keys: seq<string>, vs: seq<Value>, fields: Fields, fields': Fields)
    requires IsObjectOf(keys, vs, fields.0, fields.1) && IsObjectOf(keys, vs, fields'.0, fields'.1)
    ensures fields == fields'
  {
    forall i | 0 <= i < |fields.1|
      ensures fields.1[i] == fields'.1[i]
    {
      assert fields.0[i] in Unique(keys);
      var n := LastPlace(keys, fields.0[i]);
    }
    assert fields.1 == fields'.1;
  }

  // ---------------------------------------------------------------- objects

  lemma TakesBlock(lines: seq<Line>, after: seq<Line>, key: string, vs: seq<Value>, fields: Fields)
    requires lines != [] && KeyAndRest(lines[0]) == Ok((key, "["))
    requires ElementsAre(lines[1..], {"]", "],"}, vs, after)
    ensures SameObject(lines, fields, after, WithProperty(fields, key, Container(Unnamed, vs)))
  {
    ElementsTakeLines(lines[1..], {"]", "],"});
  }

  lemma ArrayEntryReads(lines: seq<Line>, texts: seq<string>, at: nat, to: nat, key: string, vs: seq<Value>,
                        fields: Fields)
    requires Follow(lines, texts, at) && lines != [] && KeyAndRest(lines[0]) == Ok((key, "["))
    requires AreElements(texts, at + 1, vs, {"]", "],"}) && to == at + |vs| + 2 <= |texts|
    ensures SameObject(lines, fields, lines[to - at..], WithProperty(fields, key, Container(Unnamed, vs)))
  {
    FollowLater(lines, texts, at, 1);
    ElementsExactly(lines[1..], texts, at + 1, {"]", "],"}, vs);
    AfterBlock(lines, |vs|);
    TakesBlock(lines, lines[to - at..], key, vs, fields);
  }

  lemma EntryReads(lines: seq<Line>, texts: seq<string>, at: nat, to: nat, key: string, v: Value, fields: Fields)
    requires Follow(lines, texts, at) && IsEntry(texts, at, to, key, v)
    ensures SameObject(lines, fields, lines[to - at..], WithProperty(fields, key, v))
  {
    assert lines[0].text == texts[at];
    var end: nat :| IsProperty(texts[at], end, key) && IsValueOn(texts, at, to, texts[at][end + 2..], v);
    PropertyIsSplit(lines[0], end, key);
    var rest := texts[at][end + 2..];
    if rest == "[" {
      assert v == Container(Unnamed, v.items);
      ArrayEntryReads(lines, texts, at, to, key, v.items, fields);
    } else {
      HoldsIsParsed(lines[0], rest, v);
    }
  }

  lemma {:induction false} EntriesRead(lines: seq<Line>, texts: seq<string>, at: nat, fields: Fields,
                                       keys: seq<string>, vs: seq<Value>)
    requires |keys| == |vs| && Follow(lines, texts, at) && AreEntries(texts, at, keys, vs)
    ensures ObjectFrom(lines, fields) == Ok(AsObject(Merged(fields, keys, vs)))
    decreases |keys|
  {
    assert lines[0].text == texts[at];
    if keys == [] {
      FollowLater(lines, texts, at, 1);
      NothingAfterExactly(lines[1..], texts, at + 1, AsObject(fields));
    } else {
      var to: nat :| IsEntry(texts, at, to, keys[0], vs[0]) && AreEntries(texts, to, keys[1..], vs[1..]);
      EntryReads(lines, texts, at, to, keys[0], vs[0], fields);
      FollowLater(lines, texts, at, to - at);
      EntriesRead(lines[to - at..], texts, to, WithProperty(fields, keys[0], vs[0]), keys[1..], vs[1..]);
    }
  }

  lemma ElementsAreOn(lines: seq<Line>, texts: seq<string>, at: nat) returns (vs: seq<Value>)
    requires Follow(lines, texts, at) && lines != [] && ElementsUntil(lines[1..], {"]", "],"}).Ok?
    ensures AreElements(texts, at + 1, vs, {"]", "],"}) && at + |vs| + 2 <= |texts|
  {
    vs := ElementsUntil(lines[1..], {"]", "],"}).value.0;
    GivenAtMost(lines[1..], {"]", "],"});
    FollowLater(lines, texts, at, 1);
    ElementsExactly(lines[1..], texts, at + 1, {"]", "],"}, vs);
  }

  lemma ArrayIsRead(lines: seq<Line>, texts: seq<string>, at: nat, key: string, fields: Fields)
    returns (to: nat, v: Value)
    requires Follow(lines, texts, at) && lines != [] && KeyAndRest(lines[0]) == Ok((key, "["))
    requires ElementsUntil(lines[1..], {"]", "],"}).Ok?
    ensures at < to <= |texts| && IsValueOn(texts, at, to, "[", v)
    ensures SameObject(lines, fields, lines[to - at..], WithProperty(fields, key, v))
  {
    var vs := ElementsAreOn(lines, texts, at);
    v, to := Container(Unnamed, vs), at + |vs| + 2;
    ArrayEntryReads(lines, texts, at, to, key, vs, fields);
  }

  lemma EntryIsRead(lines: seq<Line>, texts: seq<string>, at: nat, fields: Fields)
    returns (to: nat, key: string, v: Value)
    requires Follow(lines, texts, at) && ObjectFrom(lines, fields).Ok? && lines[0].text != "}"
    ensures IsEntry(texts, at, to, key, v)
    ensures SameObject(lines, fields, lines[to - at..], WithProperty(fields, key, v))
  {
    assert lines[0].text == texts[at];
    var end := SplitIsProperty(lines[0]);
    var rest := KeyAndRest(lines[0]).value.1;
    key := KeyAndRest(lines[0]).value.0;
    if rest == "[" {
      to, v := ArrayIsRead(lines, texts, at, key, fields);
    } else {
      v, to := ParsedLine(lines[0], WithoutTrailingComma(rest)).value, at + 1;
      HoldsIsParsed(lines[0], rest, v);
    }
    assert IsProperty(texts[at], end, key) && IsValueOn(texts, at, to, texts[at][end + 2..], v);
  }

  lemma {:induction false} EntriesAreRead(lines: seq<Line>, texts: seq<string>, at: nat, fields: Fields)
    returns (keys: seq<string>, vs: seq<Value>)
    requires Follow(lines, texts, at) && ObjectFrom(lines, fields).Ok?
    ensures |keys| == |vs| && AreEntries(texts, at, keys, vs)
    ensures ObjectFrom(lines, fields) == Ok(AsObject(Merged(fields, keys, vs)))
    decreases |lines|
  {
    assert lines[0].text == texts[at];
    if lines[0].text == "}" {
      keys, vs := [], [];
      FollowLater(lines, texts, at, 1);
      NothingAfterExactly(lines[1..], texts, at + 1, AsObject(fields));
    } else {
      var to, key, v := EntryIsRead(lines, texts, at, fields);
      FollowLater(lines, texts, at, to - at);
      keys, vs := EntriesAreRead(lines[to - at..], texts, to, WithProperty(fields, key, v));
      EntriesFirst(texts, at, to, key, v, keys, vs);
      assert [key] + keys != [] && ([key] + keys)[1..] == keys && ([v] + vs)[1..] == vs;
      keys, vs := [key] + keys, [v] + vs;
    }
  }

  lemma EntriesFirst(texts: seq<string>, at: nat, to: nat, key: string, v: Value, keys: seq<string>, vs: seq<Value>)
    requires |keys| == |vs| && IsEntry(texts, at, to, key, v) && AreEntries(texts, to, keys, vs)
    ensures AreEntries(texts, at, [key] + keys, [v] + vs)
  {
    var keys', vs' := [key] + keys, [v] + vs;
    assert keys'[1..] == keys && vs'[1..] == vs && keys'[0] == key && vs'[0] == v;
  }

  // ------------------------------------------------------------- whole files

  /** The file opens with this bracket on a line of its own, and the next line does not open with white space. */
  predicate OpensWith(content: Bytes, bracket: char) {
    && |content| >= 3 && content[0] as int == bracket as int && content[1] == 0x0A
    && content[2] != 0x0A && content[2] != 0x0D && content[2] != 0x20 && content[2] != 0x09
  }

  lemma FirstLineOpens(content: Bytes)
    requires content != []
    ensures TextsOf(content) != [] && |LinesIn(content)| == |TextsOf(content)|
    ensures Follow(LinesIn(content)[1..], TextsOf(content), 1)
  {
    NumberedHold(TextsOf(content), 1);
    FollowLater(LinesIn(content), TextsOf(content), 0, 1);
  }

  /** A file that opens with a bracket on a line of its own reads as the array its lines hold, or as no value. */
  lemma ArrayDocumentExactly(content: Bytes, v: Value)
    requires OpensWith(content, '[')
    ensures ReadContent(content) == Ok(v) <==>
            v.Container? && v.names.Unnamed? && IsArrayDocument(TextsOf(content), v.items)
  {
    var texts, lines := TextsOf(content), LinesIn(content)[1..];
    FirstLineOpens(content);
    GivenAtMost(lines, {"]"});
    if ElementsUntil(lines, {"]"}).Ok? {
      var (vs, after) := ElementsUntil(lines, {"]"}).value;
      ArrayEndsRight(lines, texts, vs, after);
      if v.Container? && v.names.Unnamed? && IsArrayDocument(texts, v.items) {
        ElementsExactly(lines, texts, 1, {"]"}, v.items);
      }
    } else if v.Container? && v.names.Unnamed? && IsArrayDocument(texts, v.items) {
      ElementsExactly(lines, texts, 1, {"]"}, v.items);
    }
  }

  lemma ArrayEndsRight(lines: seq<Line>, texts: seq<string>, vs: seq<Value>, after: seq<Line>)
    requires Follow(lines, texts, 1) && ElementsUntil(lines, {"]"}) == Ok((vs, after))
    requires |vs| < |lines| && after == lines[|vs| + 1..]
    ensures NothingAfter(after, Container(Unnamed, vs)).Ok? <==> IsArrayDocument(texts, vs)
    ensures NothingAfter(after, Container(Unnamed, vs)).Ok? ==>
            NothingAfter(after, Container(Unnamed, vs)) == Ok(Container(Unnamed, vs))
  {
    ElementsExactly(lines, texts, 1, {"]"}, vs);
    FollowLater(lines, texts, 1, |vs| + 1);
    NothingAfterExactly(after, texts, |vs| + 2, Container(Unnamed, vs));
  }

  /** A file that opens with a brace on a line of its own reads as the object its lines hold, or as no value. */
  lemma ObjectDocumentExactly(content: Bytes, v: Value)
    requires OpensWith(content, '{')
    ensures ReadContent(content) == Ok(v) <==>
            v.Container? && v.names.Named? && IsObjectDocument(TextsOf(content), v.names.names, v.items)
  {
    var texts, lines := TextsOf(content), LinesIn(content)[1..];
    FirstLineOpens(content);
    if ReadContent(content) == Ok(v) {
      var keys, vs := EntriesAreRead(lines, texts, 1, ([], []));
      MergedIsObject(keys, vs);
    }
    if v.Container? && v.names.Named? && IsObjectDocument(texts, v.names.names, v.items) {
      var keys: seq<string>, vs: seq<Value> :|
        |keys| == |vs| && AreEntries(texts, 1, keys, vs) && IsObjectOf(keys, vs, v.names.names, v.items);
      EntriesRead(lines, texts, 1, ([], []), keys, vs);
      MergedIsObject(keys, vs);
      ObjectIsOne(keys, vs, Merged(([], []), keys, vs), (v.names.names, v.items));
      assert v == Container(Named(v.names.names), v.items);
    }
  }

  /** Any other file reads as its one JSON text, unless there are more bytes of it than a string may hold. */
  lemma OnePieceExactly(content: Bytes, v: Value)
    requires !OpensWith(content, '[') && !OpensWith(content, '{')
    ensures ReadContent(content) == Ok(v) <==> |content| <= 536_870_888 && Parse(Decoded(content)) == Some(v)
    ensures ReadContent(content) == Err(TooLarge) <==> |content| > 536_870_888
  {
  }
}
