/** Where a file in the line layout stops being the start of a document, which is what its error says. */
module DocumentErrors {
  import opened Json
  import opened Sequences
  import opened JsonText
  import opened JsonParse
  import opened Utf8
  import opened DocumentFile
  import opened DocumentReader
  import opened DocumentRoundTrip
  import opened DocumentGrammar

  // ----------------------------------------------------------- what has been read

  /** What has been read: an object's fields, an array property of it begun, an array's elements, or a document. */
  datatype State =
    | Properties(fields: Fields)
    | Inside(fields: Fields, key: string, vs: seq<Value>)
    | Elements(vs: seq<Value>)
    | Finished(v: Value)

  function AfterProperty(fields: Fields, line: Line): Option<State> {
    match KeyAndRest(line)
    case Err(_) => None
    case Ok((key, rest)) =>
      if rest == "[" then Some(Inside(fields, key, []))
      else
        match Parse(WithoutTrailingComma(rest))
        case Some(v) => Some(Properties(WithProperty(fields, key, v)))
        case None => None
  }

  /** What has been read after one more line, or nothing where the line cannot come there. */
  function After(state: State, line: Line): Option<State> {
    match state
    case Properties(fields) => if line.text == "}" then Some(Finished(AsObject(fields)))
      else AfterProperty(fields, line)
    case Inside(fields, key, vs) =>
      if line.text in {"]", "],"} then Some(Properties(WithProperty(fields, key, Container(Unnamed, vs))))
      else (match Parse(WithoutTrailingComma(line.text))
            case Some(v) => Some(Inside(fields, key, vs + [v]))
            case None => None)
    case Elements(vs) =>
      if line.text in {"]"} then Some(Finished(Container(Unnamed, vs)))
      else (match Parse(WithoutTrailingComma(line.text))
            case Some(v) => Some(Elements(vs + [v]))
            case None => None)
    case Finished(v) => if Blank(line.text) then Some(state) else None
  }

  /** Reading ends at the first line that cannot come, or with the lines. */
  function Outcome(state: State, lines: seq<Line>): Result<Value>
    decreases |lines|
  {
    if lines == [] then if state.Finished? then Ok(state.v) else Err(NotJson(None))
    else
      match After(state, lines[0])
      case None => Err(NotJson(Some(lines[0].number)))
      case Some(next) => Outcome(next, lines[1..])
  }

  lemma {:induction false} FinishedOutcome(lines: seq<Line>, v: Value)
    ensures Outcome(Finished(v), lines) == NothingAfter(lines, v)
  {
    if lines != [] { FinishedOutcome(lines[1..], v); }
  }

  lemma {:induction false} ElementsOutcome(lines: seq<Line>, vs: seq<Value>)
    ensures Outcome(Elements(vs), lines) ==
            match ElementsUntil(lines, {"]"})
            case Err(e) => Err(e)
            case Ok((more, rest)) => NothingAfter(rest, Container(Unnamed, vs + more))
    decreases |lines|
  {
    if lines != [] {
      if lines[0].text in {"]"} {
        FinishedOutcome(lines[1..], Container(Unnamed, vs));
        assert vs + [] == vs;
      } else {
        var parsed := Parse(WithoutTrailingComma(lines[0].text));
        if parsed.Some? {
          ElementsOutcome(lines[1..], vs + [parsed.value]);
          assert forall more: seq<Value> :: vs + ([parsed.value] + more) == vs + [parsed.value] + more;
        }
      }
    }
  }

  lemma {:induction false} InsideOutcome(lines: seq<Line>, fields: Fields, key: string, vs: seq<Value>)
    ensures Outcome(Inside(fields, key, vs), lines) ==
            match ElementsUntil(lines, {"]", "],"})
            case Err(e) => Err(e)
            case Ok((more, rest)) => Outcome(Properties(WithProperty(fields, key, Container(Unnamed, vs + more))), rest)
    decreases |lines|
  {
    if lines != [] {
      if lines[0].text in {"]", "],"} {
        assert vs + [] == vs;
      } else {
        var parsed := Parse(WithoutTrailingComma(lines[0].text));
        if parsed.Some? {
          InsideOutcome(lines[1..], fields, key, vs + [parsed.value]);
          assert forall more: seq<Value> :: vs + ([parsed.value] + more) == vs + [parsed.value] + more;
        }
      }
    }
  }

  lemma {:induction false} ObjectOutcome(lines: seq<Line>, fields: Fields)
    ensures Outcome(Properties(fields), lines) == ObjectFrom(lines, fields)
    decreases |lines|
  {
    if lines != [] {
      if lines[0].text == "}" {
        FinishedOutcome(lines[1..], AsObject(fields));
      } else if KeyAndRest(lines[0]).Ok? {
        var (key, rest) := KeyAndRest(lines[0]).value;
        if rest == "[" {
          InsideOutcome(lines[1..], fields, key, []);
          ElementsTakeLines(lines[1..], {"]", "],"});
          var elements := ElementsUntil(lines[1..], {"]", "],"});
          if elements.Ok? {
            assert [] + elements.value.0 == elements.value.0;
            ObjectOutcome(elements.value.1, WithProperty(fields, key, Container(Unnamed, elements.value.0)));
          }
        } else {
          var parsed := Parse(WithoutTrailingComma(rest));
          if parsed.Some? { ObjectOutcome(lines[1..], WithProperty(fields, key, parsed.value)); }
        }
      }
    }
  }

  // ----------------------------------------------------------- going on after a line

  function OutcomeOf(state: State, texts: seq<string>, number: nat): Result<Value> {
    Outcome(state, Numbered(texts, number))
  }

  lemma OneLineOn(state: State, texts: seq<string>, number: nat)
    requires texts != []
    ensures OutcomeOf(state, texts, number) ==
            match After(state, Line(texts[0], number))
            case None => Err(NotJson(Some(number)))
            case Some(next) => OutcomeOf(next, texts[1..], number + 1)
  {
    assert Numbered(texts, number)[1..] == Numbered(texts[1..], number + 1);
  }

  /** The first `n` are the same. */
  ghost predicate Share<T>(a: seq<T>, b: seq<T>, n: nat) {
    n <= |a| && n <= |b| && forall i :: 0 <= i < n ==> a[i] == b[i]
  }

  lemma {:induction false} StopIsAmong(state: State, texts: seq<string>, number: nat, n: nat)
    requires OutcomeOf(state, texts, number) == Err(NotJson(Some(n)))
    ensures number <= n < number + |texts|
    decreases |texts|
  {
    OneLineOn(state, texts, number);
    var next := After(state, Line(texts[0], number));
    if next.Some? { StopIsAmong(next.value, texts[1..], number + 1, n); }
  }

  /** A line that cannot come stops every reading that comes to it. */
  lemma {:induction false} SameStop(state: State, texts: seq<string>, texts': seq<string>, number: nat, i: nat, n: nat)
    requires OutcomeOf(state, texts, number) == Err(NotJson(Some(n))) && n == number + i
    requires Share(texts, texts', i + 1)
    ensures OutcomeOf(state, texts', number) == Err(NotJson(Some(n)))
    decreases i
  {
    OneLineOn(state, texts, number);
    OneLineOn(state, texts', number);
    var next := After(state, Line(texts[0], number));
    if next.Some? {
      StopIsAmong(next.value, texts[1..], number + 1, n);
      SharedLater(texts, texts', i + 1, i);
      SameStop(next.value, texts[1..], texts'[1..], number + 1, i - 1, n);
    }
  }

  lemma SharedLater<T>(a: seq<T>, b: seq<T>, n: nat, m: nat)
    requires Share(a, b, n) && n == m + 1
    ensures a[0] == b[0] && Share(a[1..], b[1..], m)
  {
  }

  /** The lines that close what is open. */
  function Closing(state: State): seq<string> {
    match state
    case Properties(_) => ["}"]
    case Inside(_, _, _) => ["]", "}"]
    case Elements(_) => ["]"]
    case Finished(_) => []
  }

  lemma ClosingCloses(state: State, number: nat)
    ensures OutcomeOf(state, Closing(state), number).Ok?
  {
    if !state.Finished? {
      OneLineOn(state, Closing(state), number);
      if state.Inside? {
        var next := After(state, Line("]", number)).value;
        assert Closing(state)[1..] == ["}"];
        OneLineOn(next, ["}"], number + 1);
      }
    }
  }

  predicate AreClosers(texts: seq<string>) {
    forall i :: 0 <= i < |texts| ==> texts[i] == "]" || texts[i] == "}"
  }

  /** Lines read without a stop can be closed. */
  lemma {:induction false} CanGoOn(state: State, texts: seq<string>, m: nat, number: nat) returns (tail: seq<string>)
    requires m <= |texts|
    requires match OutcomeOf(state, texts, number)
             case Err(NotJson(Some(n))) => m <= n - number
             case _ => true
    ensures OutcomeOf(state, texts[..m] + tail, number).Ok? && AreClosers(tail)
    decreases m
  {
    if m == 0 {
      tail := Closing(state);
      ClosingCloses(state, number);
      assert texts[..m] + tail == tail;
    } else {
      OneLineOn(state, texts, number);
      var next := After(state, Line(texts[0], number));
      tail := CanGoOn(next.value, texts[1..], m - 1, number + 1);
      var more := texts[..m] + tail;
      assert more[0] == texts[0] && more[1..] == texts[1..][..m - 1] + tail;
      OneLineOn(state, more, number);
    }
  }

  // ------------------------------------------------------------- the bytes

  function Unlines(lines: seq<Bytes>): Bytes {
    if lines == [] then [] else lines[0] + [NEWLINE] + Unlines(lines[1..])
  }

  ghost predicate NoNewlines(lines: seq<Bytes>) {
    forall i :: 0 <= i < |lines| ==> NEWLINE !in lines[i]
  }

  lemma {:induction false} SplitUnlines(lines: seq<Bytes>)
    requires NoNewlines(lines)
    ensures Split(Unlines(lines), NEWLINE) == lines
  {
    if lines != [] {
      SplitUnlines(lines[1..]);
      SplitFirst(lines[0], Unlines(lines[1..]), NEWLINE);
    }
  }

  lemma BeforeFirst(content: Bytes, n: nat)
    requires n == IndexOf(content, NEWLINE)
    ensures NEWLINE !in content[..n]
  {
  }

  lemma FirstHasNone(first: Bytes, more: seq<Bytes>)
    requires NEWLINE !in first && NoNewlines(more)
    ensures NoNewlines([first] + more)
  {
  }

  lemma {:induction false} LinesHaveNone(content: Bytes)
    ensures NoNewlines(Split(content, NEWLINE))
    decreases |content|
  {
    if content != [] {
      var n := IndexOf(content, NEWLINE);
      if n == |content| {
        assert Split(content, NEWLINE) == [content];
      } else {
        BeforeFirst(content, n);
        LinesHaveNone(content[n + 1..]);
        FirstHasNone(content[..n], Split(content[n + 1..], NEWLINE));
      }
    }
  }

  predicate OpensDocument(content: Bytes) {
    OpensWith(content, '[') || OpensWith(content, '{')
  }

  /** The bracket is the first line, and the second begins with something else than white space. */
  lemma OpeningLines(content: Bytes)
    requires OpensDocument(content)
    ensures var lines := Split(content, NEWLINE);
            |lines| >= 2 && lines[0] == [content[0]] && lines[1] != [] && lines[1][0] == content[2]
  {
    var first, rest := [content[0]], content[2..];
    assert content == first + [NEWLINE] + rest;
    SplitFirst(first, rest, NEWLINE);
    assert rest[0] != NEWLINE;
  }

  /** The file opens a document, and its first lines are the other file's. */
  ghost predicate GoesOnFrom(content: Bytes, n: nat, other: Bytes) {
    OpensDocument(other) && Share(Split(content, NEWLINE), Split(other, NEWLINE), n)
  }

  /** Some document has these first lines. */
  ghost predicate CanBeDocument(content: Bytes, n: nat) {
    exists other :: GoesOnFrom(content, n, other) && ReadContent(other).Ok?
  }

  function Start(bracket: Byte): State {
    if bracket == 0x7B then Properties(([], [])) else Elements([])
  }

  lemma ReadsFromStart(content: Bytes)
    requires OpensDocument(content)
    ensures TextsOf(content) != []
    ensures ReadContent(content) == OutcomeOf(Start(content[0]), TextsOf(content)[1..], 2)
  {
    var texts := TextsOf(content);
    OpeningLines(content);
    var lines := Numbered(texts[1..], 2);
    assert LinesIn(content)[1..] == lines;
    ObjectOutcome(lines, ([], []));
    ElementsOutcome(lines, []);
    if ElementsUntil(lines, {"]"}).Ok? {
      assert [] + ElementsUntil(lines, {"]"}).value.0 == ElementsUntil(lines, {"]"}).value.0;
    }
  }

  lemma DecodedShare(a: seq<Bytes>, b: seq<Bytes>, n: nat)
    requires Share(a, b, n)
    ensures Share(DecodedAll(a), DecodedAll(b), n)
  {
  }

  lemma SameTexts(content: Bytes, n: nat, other: Bytes)
    requires GoesOnFrom(content, n, other) && OpensDocument(content) && n > 0
    ensures TextsOf(content) != [] && TextsOf(other) != [] && content[0] == other[0]
    ensures Share(TextsOf(content)[1..], TextsOf(other)[1..], n - 1)
  {
    OpeningLines(content);
    OpeningLines(other);
    assert Split(content, NEWLINE)[0] == Split(other, NEWLINE)[0];
    DecodedShare(Split(content, NEWLINE), Split(other, NEWLINE), n);
    SharedLater(TextsOf(content), TextsOf(other), n, n - 1);
  }

  function EncodedTexts(texts: seq<string>): (r: seq<Bytes>)
    ensures |r| == |texts| && forall i :: 0 <= i < |r| ==> r[i] == Encoded(texts[i])
  {
    if texts == [] then [] else [Encoded(texts[0])] + EncodedTexts(texts[1..])
  }

  lemma ClosersEncoded(tail: seq<string>)
    requires AreClosers(tail)
    ensures NoNewlines(EncodedTexts(tail)) && DecodedAll(EncodedTexts(tail)) == tail
    ensures tail != [] ==> EncodedTexts(tail)[0] == [0x5D] || EncodedTexts(tail)[0] == [0x7D]
  {
    forall i | 0 <= i < |tail|
      ensures NEWLINE !in EncodedTexts(tail)[i] && Decoded(EncodedTexts(tail)[i]) == tail[i]
    {
      NewlineEncoded(tail[i]);
      DecodedEncoded(tail[i]);
    }
    if tail != [] { assert Encoded(tail[0]) == EncodedChar(tail[0][0]) + Encoded(""); }
  }

  lemma UnlinesOpen(lines: seq<Bytes>)
    requires |lines| >= 2 && lines[1] != []
    requires lines[0] == [0x5B] || lines[0] == [0x7B]
    requires lines[1][0] != 0x0A && lines[1][0] != 0x0D && lines[1][0] != 0x20 && lines[1][0] != 0x09
    ensures OpensDocument(Unlines(lines))
  {
    var content := Unlines(lines);
    var rest := Unlines(lines[1..]);
    assert content == lines[0] + [NEWLINE] + rest;
    assert rest == lines[1] + [NEWLINE] + Unlines(lines[1..][1..]);
    assert rest[0] == lines[1][0] && content[2] == rest[0];
  }

  /** Lines that begin as a file does and go on with closers are the lines of a file that opens a document. */
  lemma OtherLines(content: Bytes, first: seq<Bytes>, last: seq<Bytes>) returns (other: Bytes)
    requires OpensDocument(content) && first != [] && first <= Split(content, NEWLINE) && NoNewlines(last)
    requires |first| >= 2 || (last != [] && (last[0] == [0x5D] || last[0] == [0x7D]))
    ensures OpensDocument(other) && Split(other, NEWLINE) == first + last
  {
    OpeningLines(content);
    LinesHaveNone(content);
    other := Unlines(first + last);
    SplitUnlines(first + last);
    var lines := Split(content, NEWLINE);
    assert (first + last)[1] == if |first| >= 2 then lines[1] else last[0];
    UnlinesOpen(first + last);
  }

  lemma FirstTexts(lines: seq<Bytes>, m: nat, last: seq<Bytes>, tail: seq<string>)
    requires m <= |lines| && DecodedAll(last) == tail
    ensures DecodedAll(lines[..m] + last) == DecodedAll(lines)[..m] + tail
  {
    DecodedAllBoth(lines[..m], last);
    assert DecodedAll(lines[..m]) == DecodedAll(lines)[..m];
  }

  /** The first lines of a file, and then these closers. */
  lemma ClosedOff(content: Bytes, m: nat, tail: seq<string>) returns (other: Bytes)
    requires OpensDocument(content) && 1 <= m <= |Split(content, NEWLINE)| && AreClosers(tail)
    requires m >= 2 || tail != []
    ensures GoesOnFrom(content, m, other)
    ensures TextsOf(other) == TextsOf(content)[..m] + tail
  {
    var lines, last := Split(content, NEWLINE), EncodedTexts(tail);
    ClosersEncoded(tail);
    other := OtherLines(content, lines[..m], last);
    FirstTexts(lines, m, last, tail);
  }

  /** Reading does not stop among the first lines. */
  predicate ReadsThrough(content: Bytes, m: nat) {
    match ReadContent(content)
    case Err(NotJson(Some(n))) => m < n
    case _ => true
  }

  lemma TailFor(content: Bytes, m: nat) returns (tail: seq<string>)
    requires OpensDocument(content) && 1 <= m <= |TextsOf(content)| && ReadsThrough(content, m)
    ensures AreClosers(tail) && (m >= 2 || tail != [])
    ensures OutcomeOf(Start(content[0]), TextsOf(content)[1..][..m - 1] + tail, 2).Ok?
  {
    ReadsFromStart(content);
    var state, texts := Start(content[0]), TextsOf(content)[1..];
    tail := CanGoOn(state, texts, m - 1, 2);
    if m == 1 { assert texts[..m - 1] + tail == tail; }
  }

  lemma AfterFirst(texts: seq<string>, m: nat, tail: seq<string>, all: seq<string>)
    requires 1 <= m <= |texts| && all == texts[..m] + tail
    ensures all != [] && all[1..] == texts[1..][..m - 1] + tail
  {
    assert texts[..m][1..] == texts[1..][..m - 1];
  }

  lemma ReadsOk(other: Bytes, bracket: Byte, texts: seq<string>)
    requires OpensDocument(other) && other[0] == bracket && TextsOf(other) != [] && TextsOf(other)[1..] == texts
    requires OutcomeOf(Start(bracket), texts, 2).Ok?
    ensures ReadContent(other).Ok?
  {
    ReadsFromStart(other);
  }

  /** The first lines of a file can be those of a document when reading does not stop among them. */
  lemma FirstLinesGoOn(content: Bytes, m: nat)
    requires OpensDocument(content) && 1 <= m <= |Split(content, NEWLINE)| && ReadsThrough(content, m)
    ensures CanBeDocument(content, m)
  {
    var texts := TextsOf(content);
    var tail := TailFor(content, m);
    var other := ClosedOff(content, m, tail);
    SameTexts(content, m, other);
    AfterFirst(texts, m, tail, TextsOf(other));
    ReadsOk(other, content[0], texts[1..][..m - 1] + tail);
  }

  lemma StopsAmong(content: Bytes, n: nat)
    requires OpensDocument(content) && ReadContent(content) == Err(NotJson(Some(n)))
    ensures 1 < n <= |Split(content, NEWLINE)|
  {
    ReadsFromStart(content);
    StopIsAmong(Start(content[0]), TextsOf(content)[1..], 2, n);
  }

  lemma StopsToo(content: Bytes, n: nat, other: Bytes)
    requires OpensDocument(content) && ReadContent(content) == Err(NotJson(Some(n)))
    requires n >= 2 && GoesOnFrom(content, n, other)
    ensures ReadContent(other) == Err(NotJson(Some(n)))
  {
    ReadsFromStart(content);
    SameTexts(content, n, other);
    SameStop(Start(content[0]), TextsOf(content)[1..], TextsOf(other)[1..], 2, n - 2, n);
    ReadsFromStart(other);
  }

  /** What an error says: the lines are the start of a document and it goes on after them, or they are up to the line
      named and no document has that one next. */
  lemma ErrorExactly(content: Bytes, error: Error)
    requires OpensWith(content, '[') || OpensWith(content, '{')
    requires ReadContent(content) == Err(error)
    ensures match error
            case NotJson(None) => CanBeDocument(content, |Split(content, NEWLINE)|)
            case NotJson(Some(n)) =>
              && 1 < n <= |Split(content, NEWLINE)|
              && CanBeDocument(content, n - 1) && !CanBeDocument(content, n)
            case TooLarge => false
  {
    OpeningLines(content);
    ErrorKind(content);
    if error.line.None? {
      FirstLinesGoOn(content, |Split(content, NEWLINE)|);
    } else {
      StopExactly(content, error.line.value);
    }
  }

  lemma StopExactly(content: Bytes, n: nat)
    requires OpensDocument(content) && ReadContent(content) == Err(NotJson(Some(n)))
    ensures 1 < n <= |Split(content, NEWLINE)|
    ensures CanBeDocument(content, n - 1) && !CanBeDocument(content, n)
  {
    StopsAmong(content, n);
    FirstLinesGoOn(content, n - 1);
    forall other | GoesOnFrom(content, n, other)
      ensures ReadContent(other).Err?
    {
      StopsToo(content, n, other);
    }
  }

  lemma ErrorKind(content: Bytes)
    requires OpensDocument(content)
    ensures ReadContent(content) != Err(TooLarge)
  {
    ReadsFromStart(content);
    OutcomeError(Start(content[0]), TextsOf(content)[1..], 2);
  }

  lemma {:induction false} OutcomeError(state: State, texts: seq<string>, number: nat)
    ensures OutcomeOf(state, texts, number) != Err(TooLarge)
    decreases |texts|
  {
    if texts != [] {
      OneLineOn(state, texts, number);
      var next := After(state, Line(texts[0], number));
      if next.Some? { OutcomeError(next.value, texts[1..], number + 1); }
    }
  }
}
