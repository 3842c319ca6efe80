/** A document cut short is an error, and the lines a document is written on. */
module DocumentCuts {
  import opened Json
  import opened Sequences
  import opened JsonText
  import opened JsonParse
  import opened Utf8
  import opened DocumentFile
  import opened DocumentReader
  import opened DocumentRoundTrip
  import opened DocumentGrammar
  import opened DocumentErrors

  // ------------------------------------------------------------------ the last line

  function Closer(content: Bytes): char
    requires content != []
  {
    if content[0] == 0x7B then '}' else ']'
  }

  lemma {:induction false} ElementsClose(texts: seq<string>, at: nat, vs: seq<Value>, closer: string)
    requires AreElements(texts, at, vs, {closer})
    ensures at + |vs| < |texts| && texts[at + |vs|] == closer
    decreases |vs|
  {
    if vs != [] { ElementsClose(texts, at + 1, vs[1..], closer); }
  }

  lemma {:induction false} EntriesClose(texts: seq<string>, at: nat, keys: seq<string>, vs: seq<Value>) returns (k: nat)
    requires |keys| == |vs| && AreEntries(texts, at, keys, vs)
    ensures at <= k < |texts| && texts[k] == "}" && BlankFrom(texts, k + 1)
    decreases |keys|
  {
    if keys == [] {
      k := at;
    } else {
      var to: nat :| IsEntry(texts, at, to, keys[0], vs[0]) && AreEntries(texts, to, keys[1..], vs[1..]);
      k := EntriesClose(texts, to, keys[1..], vs[1..]);
    }
  }

  /** A file that opens with a bracket and reads as a value has a line with only the bracket that closes it, and after
      that blank lines. */
  lemma ReadsToCloser(content: Bytes) returns (k: nat)
    requires OpensWith(content, '[') || OpensWith(content, '{')
    requires ReadContent(content).Ok?
    ensures 0 < k < |TextsOf(content)| && BlankFrom(TextsOf(content), k + 1)
    ensures TextsOf(content)[k] == if content[0] == 0x7B then "}" else "]"
  {
    var texts, v := TextsOf(content), ReadContent(content).value;
    if content[0] == 0x7B {
      ObjectDocumentExactly(content, v);
      var keys: seq<string>, vs: seq<Value> :|
        |keys| == |vs| && AreEntries(texts, 1, keys, vs) && IsObjectOf(keys, vs, v.names.names, v.items);
      k := EntriesClose(texts, 1, keys, vs);
    } else {
      ArrayDocumentExactly(content, v);
      ElementsClose(texts, 1, v.items, "]");
      k := 1 + |v.items|;
    }
  }

  // ------------------------------------------------------------------ cutting bytes

  /** Only an ASCII byte is decoded as an ASCII character. */
  lemma AsciiDecoded(bytes: Bytes)
    requires bytes != []
    ensures Decoded(bytes) != "" && (bytes[0] < 0x80 ==> Decoded(bytes)[0] as int == bytes[0] as int)
    ensures Decoded(bytes)[0] as int < 0x80 ==> bytes[0] as int == Decoded(bytes)[0] as int
    ensures Decoded(bytes)[0] as int < 0x80 ==> Decoded(bytes)[1..] == Decoded(bytes[1..])
  {
  }

  lemma NothingDecoded(bytes: Bytes)
    requires Decoded(bytes) == ""
    ensures bytes == []
  {
  }

  lemma OneByte(bytes: Bytes, c: char)
    requires (c as int) < 0x80
    ensures Decoded(bytes) == [c] <==> bytes == [c as int as Byte]
  {
    if bytes != [] {
      AsciiDecoded(bytes);
      if Decoded(bytes) == [c] {
        assert Decoded(bytes)[1..] == "";
        NothingDecoded(bytes[1..]);
        assert bytes == [bytes[0]] + bytes[1..];
      }
    }
  }

  lemma SplitHead(line: Bytes, rest: Bytes, all: Bytes, lines: seq<Bytes>)
    requires NEWLINE !in line && all == line + [NEWLINE] + rest && lines == Split(rest, NEWLINE)
    ensures Split(all, NEWLINE) == [line] + lines
  {
    SplitFirst(line, rest, NEWLINE);
  }

  lemma AtNewline(bytes: Bytes) returns (line: Bytes, rest: Bytes)
    requires NEWLINE in bytes
    ensures NEWLINE !in line && bytes == line + [NEWLINE] + rest
  {
    var n := IndexOf(bytes, NEWLINE);
    line, rest := bytes[..n], bytes[n + 1..];
  }

  lemma FirstLine(bytes: Bytes) returns (line: Bytes, rest: Bytes)
    requires NEWLINE in bytes
    ensures NEWLINE !in line && bytes == line + [NEWLINE] + rest
    ensures Split(bytes, NEWLINE) == [line] + Split(rest, NEWLINE)
  {
    line, rest := AtNewline(bytes);
    SplitHead(line, rest, bytes, Split(rest, NEWLINE));
  }

  /** The cut lines begin the lines, and when one is the whole last line only the newline after it is cut. */
  ghost predicate LineIsCut(cut: seq<Bytes>, lines: seq<Bytes>, j: nat, most: bool) {
    j < |cut| ==> j < |lines| && cut[j] <= lines[j] && (j == |lines| - 1 && cut[j] == lines[j] ==> most)
  }

  ghost predicate IsCut(bytes: Bytes, n: nat, j: nat)
    requires n <= |bytes|
  {
    LineIsCut(Split(bytes[..n], NEWLINE), Split(bytes, NEWLINE), j, n + 1 >= |bytes|)
  }

  /** A cut inside the first line leaves a part of that. */
  lemma CutInFirst(bytes: Bytes, line: Bytes, lines: seq<Bytes>, n: nat, j: nat)
    requires 0 < n <= |line| && line <= bytes && NEWLINE !in line && Split(bytes, NEWLINE) == [line] + lines
    requires lines == [] ==> |bytes| <= |line| + 1
    ensures IsCut(bytes, n, j)
  {
    assert bytes[..n] == line[..n];
    SplitLast(line[..n], NEWLINE);
    PartOfFirst(line, lines, n, j, n + 1 >= |bytes|);
  }

  lemma PartOfFirst(line: Bytes, lines: seq<Bytes>, n: nat, j: nat, most: bool)
    requires n <= |line| && (lines == [] && n == |line| ==> most)
    ensures LineIsCut([line[..n]], [line] + lines, j, most)
  {
  }

  /** A cut past the first newline leaves the first line whole. */
  lemma CutLater(bytes: Bytes, line: Bytes, rest: Bytes, n: nat, m: nat, j: nat)
    requires bytes == line + [NEWLINE] + rest && NEWLINE !in line && n == |line| + 1 + m <= |bytes|
    requires j > 0 ==> IsCut(rest, m, j - 1)
    ensures IsCut(bytes, n, j)
  {
    var cut, lines, most := Split(rest[..m], NEWLINE), Split(rest, NEWLINE), n + 1 >= |bytes|;
    assert bytes[..n] == line + [NEWLINE] + rest[..m];
    SplitHead(line, rest[..m], bytes[..n], cut);
    SplitHead(line, rest, bytes, lines);
    assert most == (m + 1 >= |rest|);
    SomeLines(rest);
    CutsLater(line, cut, lines, j, most);
  }

  lemma SomeLines(bytes: Bytes)
    ensures Split(bytes, NEWLINE) == [] <==> bytes == []
  {
  }

  lemma CutsLater(line: Bytes, cut: seq<Bytes>, lines: seq<Bytes>, j: nat, most: bool)
    requires if j > 0 then LineIsCut(cut, lines, j - 1, most) else lines == [] ==> most
    ensures LineIsCut([line] + cut, [line] + lines, j, most)
  {
  }

  lemma {:induction false} CutLines(bytes: Bytes, n: nat, j: nat)
    requires n <= |bytes|
    ensures IsCut(bytes, n, j)
    decreases |bytes|
  {
    if n == 0 {
      SomeLines(bytes[..n]);
    } else if NEWLINE in bytes {
      var line, rest := FirstLine(bytes);
      if n <= |line| {
        SomeLines(rest);
        CutInFirst(bytes, line, Split(rest, NEWLINE), n, j);
      } else {
        var m: nat := n - |line| - 1;
        if j > 0 { CutLines(rest, m, j - 1); }
        CutLater(bytes, line, rest, n, m, j);
      }
    } else {
      SplitLast(bytes, NEWLINE);
      assert [bytes] + [] == [bytes];
      CutInFirst(bytes, bytes, [], n, j);
    }
  }

  lemma Regrouped<T>(one: seq<T>, more: seq<T>, last: seq<T>, all: seq<T>)
    requires all == more + last
    ensures one + all == one + more + last
  {
  }

  lemma LineBefore(line: Bytes, rest: Bytes, b: Bytes, a: Bytes, lines: seq<Bytes>, more: seq<Bytes>)
    requires NEWLINE !in line && a == line + [NEWLINE] + rest
    requires lines == Split(rest, NEWLINE) && Split(rest + b, NEWLINE) == lines + more
    ensures Split(a + b, NEWLINE) == Split(a, NEWLINE) + more
  {
    SplitHead(line, rest, a, lines);
    Regrouped(line + [NEWLINE], rest, b, rest + b);
    SplitHead(line, rest + b, a + b, lines + more);
    Regrouped([line], lines, more, lines + more);
  }

  lemma {:induction false} SplitAfterNewline(a: Bytes, b: Bytes)
    requires a != [] && a[|a| - 1] == NEWLINE
    ensures Split(a + b, NEWLINE) == Split(a, NEWLINE) + Split(b, NEWLINE)
    decreases |a|
  {
    var line, rest := FirstLine(a);
    if rest == [] {
      assert rest + b == b;
    } else {
      assert rest[|rest| - 1] == a[|a| - 1];
      SplitAfterNewline(rest, b);
    }
    LineBefore(line, rest, b, a, Split(rest, NEWLINE), Split(b, NEWLINE));
  }

  // ------------------------------------------------------------------ documents cut short

  /** No line but the last begins with the closer, and the last is the closer. */
  ghost predicate ClosesAtEnd(texts: seq<string>, closer: char) {
    && texts != [] && texts[|texts| - 1] == [closer]
    && forall i :: 0 <= i < |texts| - 1 ==> texts[i] != "" && texts[i][0] != closer
  }

  lemma {:induction false} CommasStart(texts: seq<string>, closer: char)
    requires forall i :: 0 <= i < |texts| ==> texts[i] != "" && texts[i][0] != closer
    ensures NoneStarts(WithCommas(texts), closer)
  {
    if texts != [] {
      CommasStart(texts[1..], closer);
      NoneStartsBoth([texts[0] + if |texts| == 1 then "" else ","], WithCommas(texts[1..]), closer);
    }
  }

  ghost predicate NoneStarts(texts: seq<string>, closer: char) {
    forall i :: 0 <= i < |texts| ==> texts[i] != "" && texts[i][0] != closer
  }

  lemma NoneStartsBoth(a: seq<string>, b: seq<string>, closer: char)
    requires NoneStarts(a, closer) && NoneStarts(b, closer)
    ensures NoneStarts(a + b, closer)
  {
  }

  lemma NotCloser(v: Value)
    requires WellFormed(v)
    ensures Minified(v) != "" && Minified(v)[0] != '}' && Minified(v)[0] != ']'
  {
    if v.Primitive? && v.atom.Number? { NumberTextChars(v.atom.literal); }
  }

  lemma MinifiedStarts(vs: seq<Value>, closer: char)
    requires AllWellFormed(vs) && (closer == '}' || closer == ']')
    ensures NoneStarts(WithCommas(MinifiedAll(vs)), closer)
  {
    MinifiedEach(vs);
    forall i | 0 <= i < |vs|
      ensures MinifiedAll(vs)[i] != "" && MinifiedAll(vs)[i][0] != closer
    {
      NotCloser(vs[i]);
    }
    CommasStart(MinifiedAll(vs), closer);
  }

  lemma PropertyStarts(name: string, v: Value, comma: string)
    requires WellFormed(v)
    ensures NoneStarts(PropertyLines(name, v, comma), '}')
  {
    if v.Container? && v.names.Unnamed? && v.items != [] {
      MinifiedStarts(v.items, '}');
      assert ("]" + comma)[0] == ']';
      NoneStartsBoth(WithCommas(MinifiedAll(v.items)), ["]" + comma], '}');
      NoneStartsBoth([FieldText(name, "[")], WithCommas(MinifiedAll(v.items)) + ["]" + comma], '}');
    }
  }

  lemma {:induction false} ObjectStarts(names: seq<string>, vs: seq<Value>)
    requires |names| == |vs| && AllWellFormed(vs)
    ensures NoneStarts(ObjectLines(names, vs), '}')
    decreases |names|
  {
    if names != [] {
      PropertyStarts(names[0], vs[0], if |names| == 1 then "" else ",");
      ObjectStarts(names[1..], vs[1..]);
      NoneStartsBoth(PropertyLines(names[0], vs[0], if |names| == 1 then "" else ","), ObjectLines(names[1..], vs[1..]),
                     '}');
    }
  }

  lemma LinesClose(open: char, inside: seq<string>, closer: char, texts: seq<string>)
    requires texts == [[open]] + (inside + [[closer]]) && open != closer && NoneStarts(inside, closer)
    ensures ClosesAtEnd(texts, closer)
  {
    forall i | 0 <= i < |texts| - 1
      ensures texts[i] != "" && texts[i][0] != closer
    {
      if i > 0 { assert texts[i] == inside[i - 1]; }
    }
  }

  /** A list or an object with something in it is on a line for each element, and for each property, or each element of
      a property that is a list; anything else is on one line, as is an object with its own way to be printed. */
  lemma LinesOfDocument(v: Value)
    requires WellFormed(v)
    ensures Split(DocumentText(v), '\n') ==
            if v.Primitive? || v.items == [] || (v.names.Named? && "toJSON" in v.names.names) then [Minified(v)]
            else if v.names.Unnamed? then ["["] + (WithCommas(MinifiedAll(v.items)) + ["]"])
            else ["{"] + (ObjectLines(v.names.names, v.items) + ["}"])
  {
    if !LaidOut(v) {
      MinifiedHasNoNewline(v);
      SplitFirst(Minified(v), "", '\n');
      assert DocumentText(v) == Minified(v) + ['\n'] + "";
    } else if v.names.Unnamed? {
      AllMinifiedHaveNoNewline(v.items);
      ArraySplit(MinifiedAll(v.items));
    } else {
      ObjectSplit(v.names.names, v.items);
    }
  }

  lemma {:induction false} CommaBetween(texts: seq<string>, i: nat)
    requires i < |texts|
    ensures WithCommas(texts)[i] == if i + 1 < |texts| then texts[i] + "," else texts[i]
  {
    if i > 0 { CommaBetween(texts[1..], i - 1); } else { assert texts[0] + "" == texts[0]; }
  }

  lemma DocumentClosesAtEnd(v: Value)
    requires WellFormed(v) && LaidOut(v)
    ensures ClosesAtEnd(Split(DocumentText(v), '\n'), if v.names.Named? then '}' else ']')
  {
    LinesOfDocument(v);
    if v.names.Unnamed? {
      MinifiedStarts(v.items, ']');
      LinesClose('[', WithCommas(MinifiedAll(v.items)), ']', Split(DocumentText(v), '\n'));
    } else {
      ObjectStarts(v.names.names, v.items);
      LinesClose('{', ObjectLines(v.names.names, v.items), '}', Split(DocumentText(v), '\n'));
    }
  }

  /** Bytes whose lines close at their end only, cut before that, have no line that closes. */
  lemma NoCloserLeft(bytes: Bytes, n: nat, k: nat, closer: char)
    requires ClosesAtEnd(TextsOf(bytes), closer) && (closer as int) < 0x80
    requires n + 1 < |bytes| && k < |TextsOf(bytes[..n])|
    ensures TextsOf(bytes[..n])[k] != [closer]
  {
    var cut, lines := Split(bytes[..n], NEWLINE), Split(bytes, NEWLINE);
    CutLines(bytes, n, k);
    if Decoded(cut[k]) == [closer] {
      OneByte(cut[k], closer);
      assert lines[k][0] == cut[k][0];
      AsciiDecoded(lines[k]);
      assert TextsOf(bytes)[k] == Decoded(lines[k]);
      assert k == |lines| - 1;
      OneByte(lines[k], closer);
    }
  }

  /** A cut that leaves the opening leaves the bracket, and the file it was cut from opens with it too. */
  lemma OpensWhole(bytes: Bytes, n: nat)
    requires n <= |bytes| && OpensDocument(bytes[..n])
    ensures OpensDocument(bytes) && bytes[0] == bytes[..n][0]
  {
  }

  lemma OpensLaidOut(v: Value)
    requires WellFormed(v)
    ensures OpensDocument(Encoded(DocumentText(v))) ==>
            LaidOut(v) && (Encoded(DocumentText(v))[0] == 0x7B <==> v.names.Named?)
  {
    if !LaidOut(v) {
      OneLineIsNotLayout(v);
    } else if v.names.Unnamed? {
      ArrayStart(v.items);
    } else {
      ObjectStart(v.names.names, v.items);
    }
  }

  /** Whatever is cut from a document's end but its last newline, what is left is an error while it opens as one. */
  lemma CutIsError(v: Value, n: nat)
    requires WellFormed(v) && n + 1 < |Encoded(DocumentText(v))|
    requires var left := Encoded(DocumentText(v))[..n]; OpensWith(left, '[') || OpensWith(left, '{')
    ensures ReadContent(Encoded(DocumentText(v))[..n]).Err?
  {
    var bytes := Encoded(DocumentText(v));
    var left := bytes[..n];
    OpensWhole(bytes, n);
    OpensLaidOut(v);
    DocumentClosesAtEnd(v);
    SplitEncoded(DocumentText(v));
    if ReadContent(left).Ok? {
      var k := ReadsToCloser(left);
      NoCloserLeft(bytes, n, k, if v.names.Named? then '}' else ']');
      assert false;
    }
  }

  /** Cut after a line, it is an error at the end and at no line. */
  lemma CutBetweenLines(v: Value, n: nat)
    requires WellFormed(v) && n + 1 < |Encoded(DocumentText(v))|
    requires var left := Encoded(DocumentText(v))[..n];
             (OpensWith(left, '[') || OpensWith(left, '{')) && left[n - 1] == 0x0A
    ensures ReadContent(Encoded(DocumentText(v))[..n]) == Err(NotJson(None))
  {
    var bytes := Encoded(DocumentText(v));
    var left := bytes[..n];
    CutIsError(v, n);
    OpensWhole(bytes, n);
    OpensLaidOut(v);
    DocumentRoundTrips(v);
    LinesGoOn(bytes, n, left);
    ErrorExactly(left, ReadContent(left).error);
  }

  /** The lines left by a cut after a line are the first lines of what it was cut from. */
  lemma LinesGoOn(bytes: Bytes, n: nat, left: Bytes)
    requires 0 < n <= |bytes| && left == bytes[..n] && left[n - 1] == NEWLINE
    requires OpensDocument(bytes) && ReadContent(bytes).Ok?
    ensures forall m: nat :: m <= |Split(left, NEWLINE)| ==> CanBeDocument(left, m)
  {
    var rest := bytes[n..];
    SplitAfterNewline(left, rest);
    assert left + rest == bytes;
    forall m: nat | m <= |Split(left, NEWLINE)|
      ensures CanBeDocument(left, m)
    {
      assert GoesOnFrom(left, m, bytes);
    }
  }
}
