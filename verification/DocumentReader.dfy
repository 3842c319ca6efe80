/** Reading a JSON file: the layout test, the lines, and the values they hold. */
module DocumentReader {
  import opened Json
  import opened Sequences
  import opened JsonParse
  import opened Utf8
  import opened DocumentFile

  /** One line of a file and its number, from 1. */
  datatype Line = Line(text: string, number: nat)

  function Numbered(texts: seq<string>, from: nat): (lines: seq<Line>)
    ensures |lines| == |texts|
  {
    if texts == [] then [] else [Line(texts[0], from)] + Numbered(texts[1..], from + 1)
  }

  lemma {:induction false} NumberedBoth(a: seq<string>, b: seq<string>, from: nat)
    ensures Numbered(a + b, from) == Numbered(a, from) + Numbered(b, from + |a|)
  {
    if a == [] {
      assert a + b == b;
    } else {
      assert (a + b)[1..] == a[1..] + b;
      NumberedBoth(a[1..], b, from + 1);
    }
  }

  /** The lines of a whole content. */
  function LinesIn(content: Bytes): seq<Line> {
    Numbered(DecodedAll(Split(content, NEWLINE)), 1)
  }

  lemma DecodedAllBoth(a: seq<Bytes>, b: seq<Bytes>)
    ensures DecodedAll(a + b) == DecodedAll(a) + DecodedAll(b)
  {
  }

  /** How far the lines are read: `done` are the bytes of each line given, `partial` those of the line begun,
      and `ahead` those still to come. */
  ghost predicate Underway(all: seq<Bytes>, done: seq<Bytes>, lines: seq<Line>, partial: seq<Bytes>, ahead: Bytes) {
    && lines == Numbered(DecodedAll(done), 1)
    && NEWLINE !in Concat(partial) && (partial == [] <==> Concat(partial) == [])
    && done + Split(Concat(partial) + ahead, NEWLINE) == all
  }

  lemma SplitOneMore(all: seq<Bytes>, done: seq<Bytes>, begun: Bytes, last: Bytes, ahead: Bytes)
    requires done + Split(begun + (last + [NEWLINE] + ahead), NEWLINE) == all
    requires NEWLINE !in begun && NEWLINE !in last
    ensures (done + [begun + last]) + Split(ahead, NEWLINE) == all
  {
    var raw := begun + last;
    assert begun + (last + [NEWLINE] + ahead) == raw + [NEWLINE] + ahead;
    SplitFirst(raw, ahead, NEWLINE);
    assert done + ([raw] + Split(ahead, NEWLINE)) == (done + [raw]) + Split(ahead, NEWLINE);
  }

  lemma LineDone(all: seq<Bytes>, done: seq<Bytes>, lines: seq<Line>, partial: seq<Bytes>, last: Bytes, ahead: Bytes)
    requires Underway(all, done, lines, partial, last + [NEWLINE] + ahead) && NEWLINE !in last
    ensures var raw := Concat(partial) + last;
            Underway(all, done + [raw], lines + [Line(Decoded(raw), |lines| + 1)], [], ahead)
  {
    SplitOneMore(all, done, Concat(partial), last, ahead);
    OneMoreLine(done, lines, Concat(partial) + last);
    assert Concat<Byte>([]) + ahead == ahead;
  }

  /** The tail of a chunk is the start of a line that goes on in the next one. */
  lemma TailKept(all: seq<Bytes>, done: seq<Bytes>, lines: seq<Line>, partial: seq<Bytes>, tail: Bytes, ahead: Bytes)
    requires Underway(all, done, lines, partial, tail + ahead) && NEWLINE !in tail
    ensures Underway(all, done, lines, if tail == [] then partial else partial + [tail], ahead)
  {
    if tail == [] {
      assert tail + ahead == ahead;
    } else {
      ConcatOneMore(partial, tail);
      assert Concat(partial) + (tail + ahead) == Concat(partial) + tail + ahead;
    }
  }

  lemma OneMoreLine(done: seq<Bytes>, lines: seq<Line>, raw: Bytes)
    requires lines == Numbered(DecodedAll(done), 1)
    ensures lines + [Line(Decoded(raw), |lines| + 1)] == Numbered(DecodedAll(done + [raw]), 1)
  {
    DecodedAllBoth(done, [raw]);
    assert [raw][1..] == [] && [Decoded(raw)][1..] == [];
    assert DecodedAll([raw]) == [Decoded(raw)];
    NumberedBoth(DecodedAll(done), [Decoded(raw)], 1);
  }

  /** Where the next newline of a chunk is, or the chunk's length. */
  function NewlineFrom(view: Bytes, start: nat): (end: nat)
    requires start <= |view|
    ensures start <= end <= |view| && NEWLINE !in view[start..end] && (end < |view| ==> view[end] == NEWLINE)
  {
    var n := IndexOf(view[start..], NEWLINE);
    assert forall j :: start <= j < start + n ==> view[j] == view[start..][j - start];
    assert n < |view[start..]| ==> view[start + n] == view[start..][n];
    start + n
  }

  lemma RestOfChunk(view: Bytes, start: nat, end: nat, later: Bytes)
    requires start <= end < |view| && view[end] == NEWLINE
    ensures view[start..] + later == view[start..end] + [NEWLINE] + (view[end + 1..] + later)
  {
  }

  /** The next newline of a chunk completes a line. */
  lemma NextLine(all: seq<Bytes>, done: seq<Bytes>, lines: seq<Line>, partial: seq<Bytes>, view: Bytes, start: nat,
                 end: nat, next: nat, later: Bytes, raw: Bytes, number: nat)
    requires start <= end < |view| && view[end] == NEWLINE && NEWLINE !in view[start..end]
    requires Underway(all, done, lines, partial, view[start..] + later) && raw == Concat(partial) + view[start..end]
    requires number == |lines| + 1 && next == end + 1
    ensures Underway(all, done + [raw], lines + [Line(Decoded(raw), number)], [], view[next..] + later)
  {
    RestOfChunk(view, start, end, later);
    LineDone(all, done, lines, partial, view[start..end], view[end + 1..] + later);
  }

  /** The lines one chunk ends, and what it leaves begun. */
  method LinesOfChunk(view: Bytes, lines0: seq<Line>, partial0: seq<Bytes>,
                      ghost all: seq<Bytes>, ghost done0: seq<Bytes>, ghost later: Bytes)
    returns (lines: seq<Line>, partial: seq<Bytes>, ghost done: seq<Bytes>)
    requires Underway(all, done0, lines0, partial0, view + later)
    ensures Underway(all, done, lines, partial, later)
  {
    lines, partial, done := lines0, partial0, done0;
    var start, number := 0, |lines|;
    assert view[0..] == view;
    var end := NewlineFrom(view, start);
    while end < |view|
      invariant start <= |view| && end == NewlineFrom(view, start)
      invariant number == |lines| && Underway(all, done, lines, partial, view[start..] + later)
      decreases |view| - start
    {
      number := number + 1;
      var raw, next := Concat(partial) + view[start..end], end + 1;
      NextLine(all, done, lines, partial, view, start, end, next, later, raw, number);
      done, lines, partial := done + [raw], lines + [Line(Decoded(raw), number)], [];
      start := next;
      end := NewlineFrom(view, start);
    }
    TailKept(all, done, lines, partial, view[start..], later);
    if start < |view| {
      partial := partial + [view[start..]];
    }
  }

  /** The lines of a file that arrives in chunks of any size, whichever way it is cut. */
  method LinesOf(chunks: seq<Bytes>) returns (lines: seq<Line>)
    requires forall i :: 0 <= i < |chunks| ==> chunks[i] != []
    ensures lines == LinesIn(Concat(chunks))
  {
    lines := [];
    var partial: seq<Bytes> := [];
    ghost var done: seq<Bytes> := [];
    ghost var all := Split(Concat(chunks), NEWLINE);
    assert Concat(partial) + Concat(chunks) == Concat(chunks) && chunks[0..] == chunks;
    for i := 0 to |chunks|
      invariant Underway(all, done, lines, partial, Concat(chunks[i..]))
    {
      assert chunks[i..][1..] == chunks[i + 1..];
      lines, partial, done := LinesOfChunk(chunks[i], lines, partial, all, done, Concat(chunks[i + 1..]));
    }
    assert Concat(partial) + Concat(chunks[|chunks|..]) == Concat(partial);
    if |partial| > 0 {
      SplitLast(Concat(partial), NEWLINE);
      OneMoreLine(done, lines, Concat(partial));
      lines := lines + [Line(Decoded(Concat(partial)), |lines| + 1)];
      done := done + [Concat(partial)];
    }
    assert done == all;
  }

  // ---------------------------------------------------------------- parsing

  predicate OpensLayout(b: Byte) {
    b == 0x5B || b == 0x7B
  }

  /** Decides the layout from three bytes: a bracket or brace, a newline, and a byte that is not white space. */
  predicate IsLineLayout(start: Bytes) {
    && |start| >= 3 && OpensLayout(start[0]) && start[1] == NEWLINE
    && start[2] != 0x20 && start[2] != 0x09 && start[2] != NEWLINE && start[2] != 0x0D
  }

  function WithoutTrailingComma(text: string): string {
    if text != "" && text[|text| - 1] == ',' then text[..|text| - 1] else text
  }

  function ParsedLine(line: Line, text: string): Result<Value> {
    match Parse(text)
    case Some(v) => Ok(v)
    case None => Err(NotJson(Some(line.number)))
  }

  type Rest = (seq<Value>, seq<Line>)

  /** Parses lines into elements until one is a closer, and says which lines are left after it. */
  function ElementsUntil(lines: seq<Line>, closers: set<string>): Result<Rest> {
    if lines == [] then Err(NotJson(None))
    else if lines[0].text in closers then Ok(([], lines[1..]))
    else
      match ParsedLine(lines[0], WithoutTrailingComma(lines[0].text))
      case Err(e) => Err(e)
      case Ok(v) =>
        match ElementsUntil(lines[1..], closers)
        case Err(e) => Err(e)
        case Ok((vs, rest)) => Ok(([v] + vs, rest))
  }

  method ElementsUntilClose(lines: seq<Line>, closers: set<string>) returns (r: Result<Rest>)
    ensures r == ElementsUntil(lines, closers)
  {
    var elements: seq<Value> := [];
    var next := 0;
    ghost var all := ElementsUntil(lines, closers);
    assert lines[0..] == lines;
    if all.Ok? { assert elements + all.value.0 == all.value.0; }
    while next < |lines|
      invariant next <= |lines|
      invariant all == match ElementsUntil(lines[next..], closers)
                       case Err(e) => Err(e)
                       case Ok((vs, rest)) => Ok((elements + vs, rest))
    {
      var line := lines[next];
      ghost var ahead := lines[next..];
      assert ahead[0] == line && ahead[1..] == lines[next + 1..];
      if line.text in closers {
        assert elements + [] == elements;
        return Ok((elements, lines[next + 1..]));
      }
      var parsed := ParsedLine(line, WithoutTrailingComma(line.text));
      if parsed.Err? {
        return Err(parsed.error);
      }
      assert forall vs: seq<Value> :: elements + ([parsed.value] + vs) == elements + [parsed.value] + vs;
      elements := elements + [parsed.value];
      next := next + 1;
    }
    assert lines[next..] == [];
    return Err(NotJson(None));
  }

  /** What `trim` takes off either end of a string. */
  predicate Trimmed(c: char) {
    || '\t' <= c <= '\r' || c == ' ' || c == '\U{A0}' || c == '\U{1680}' || '\U{2000}' <= c <= '\U{200A}'
    || c == '\U{2028}' || c == '\U{2029}' || c == '\U{202F}' || c == '\U{205F}' || c == '\U{3000}' || c == '\U{FEFF}'
  }

  predicate Blank(text: string) {
    forall i :: 0 <= i < |text| ==> Trimmed(text[i])
  }

  /** Nothing but blank lines may follow the document. */
  function NothingAfter(lines: seq<Line>, v: Value): Result<Value> {
    if lines == [] then Ok(v)
    else if Blank(lines[0].text) then NothingAfter(lines[1..], v)
    else Err(NotJson(Some(lines[0].number)))
  }

  method ExpectNothingAfter(lines: seq<Line>, v: Value) returns (r: Result<Value>)
    ensures r == NothingAfter(lines, v)
  {
    assert lines[0..] == lines;
    for next := 0 to |lines|
      invariant NothingAfter(lines, v) == NothingAfter(lines[next..], v)
    {
      assert lines[next..][1..] == lines[next + 1..];
      if !Blank(lines[next].text) {
        return Err(NotJson(Some(lines[next].number)));
      }
    }
    return Ok(v);
  }

  /** Where the quote that closes a key is, scanning from `at`; an escape is two characters. */
  function KeyEnd(text: string, at: nat): nat
    decreases |text| - at
  {
    if at < |text| && text[at] != '\"' then KeyEnd(text, at + if text[at] == '\\' then 2 else 1) else at
  }

  /** A property's key and the text after its colon. */
  function KeyAndRest(line: Line): Result<(string, string)> {
    var text := line.text;
    var end := KeyEnd(text, 1);
    if text == "" || text[0] != '\"' then Err(NotJson(Some(line.number)))
    else if end + 1 >= |text| || text[end + 1] != ':' then Err(NotJson(Some(line.number)))
    else
      match Parse(text[..end + 1])
      case Some(Primitive(Text(key))) => Ok((key, text[end + 2..]))
      case _ => Err(NotJson(Some(line.number)))
  }

  method SplitProperty(line: Line) returns (r: Result<(string, string)>)
    ensures r == KeyAndRest(line)
  {
    var text := line.text;
    if text == "" || text[0] != '\"' {
      return Err(NotJson(Some(line.number)));
    }
    var end := 1;
    while end < |text| && text[end] != '\"'
      invariant KeyEnd(text, end) == KeyEnd(text, 1)
      decreases |text| - end
    {
      end := end + if text[end] == '\\' then 2 else 1;
    }
    if end + 1 >= |text| || text[end + 1] != ':' {
      return Err(NotJson(Some(line.number)));
    }
    match Parse(text[..end + 1])
    case Some(Primitive(Text(key))) => return Ok((key, text[end + 2..]));
    case _ => return Err(NotJson(Some(line.number)));
  }

  /** An object with a property defined on it: a key it has keeps its place. */
  function WithProperty(fields: Fields, key: string, v: Value): Fields {
    if key in fields.0 then
      var at := IndexOf(fields.0, key);
      (fields.0, if at < |fields.1| then fields.1[at := v] else fields.1)
    else (fields.0 + [key], fields.1 + [v])
  }

  /** The object whose remaining properties these lines hold. */
  function ObjectFrom(lines: seq<Line>, fields: Fields): Result<Value>
    decreases |lines|
  {
    if lines == [] then Err(NotJson(None))
    else if lines[0].text == "}" then NothingAfter(lines[1..], Container(Named(fields.0), fields.1))
    else
      match KeyAndRest(lines[0])
      case Err(e) => Err(e)
      case Ok((key, rest)) =>
        if rest == "[" then
          match ElementsUntil(lines[1..], {"]", "],"})
          case Err(e) => Err(e)
          case Ok((vs, after)) =>
            if |after| < |lines| then ObjectFrom(after, WithProperty(fields, key, Container(Unnamed, vs)))
            else Err(NotJson(None))
        else
          match ParsedLine(lines[0], WithoutTrailingComma(rest))
          case Err(e) => Err(e)
          case Ok(v) => ObjectFrom(lines[1..], WithProperty(fields, key, v))
  }

  lemma {:induction false} ElementsTakeLines(lines: seq<Line>, closers: set<string>)
    ensures var r := ElementsUntil(lines, closers); r.Ok? ==> |r.value.1| < |lines|
  {
    if lines != [] { ElementsTakeLines(lines[1..], closers); }
  }

  method LineLayoutObject(all: seq<Line>) returns (r: Result<Value>)
    ensures r == ObjectFrom(if all == [] then [] else all[1..], ([], []))
  {
    var lines := if all == [] then [] else all[1..];
    var fields: Fields := ([], []);
    ghost var end := ObjectFrom(lines, fields);
    while |lines| > 0
      invariant ObjectFrom(lines, fields) == end
      decreases |lines|
    {
      var line := lines[0];
      if line.text == "}" {
        r := ExpectNothingAfter(lines[1..], Container(Named(fields.0), fields.1));
        return;
      }
      var split := SplitProperty(line);
      if split.Err? {
        return Err(split.error);
      }
      var (key, rest) := split.value;
      if rest == "[" {
        var elements := ElementsUntilClose(lines[1..], {"]", "],"});
        ElementsTakeLines(lines[1..], {"]", "],"});
        if elements.Err? {
          return Err(elements.error);
        }
        fields := WithProperty(fields, key, Container(Unnamed, elements.value.0));
        lines := elements.value.1;
      } else {
        var parsed := ParsedLine(line, WithoutTrailingComma(rest));
        if parsed.Err? {
          return Err(parsed.error);
        }
        fields := WithProperty(fields, key, parsed.value);
        lines := lines[1..];
      }
    }
    return Err(NotJson(None));
  }

  function ElementsDocument(lines: seq<Line>): Result<Value> {
    match ElementsUntil(if lines == [] then [] else lines[1..], {"]"})
    case Err(e) => Err(e)
    case Ok((vs, rest)) => NothingAfter(rest, Container(Unnamed, vs))
  }

  /** What a file's content reads as. */
  function ReadContent(content: Bytes): Result<Value> {
    if !IsLineLayout(content) then
      if |content| > MAX_STRING_CHARS then Err(TooLarge) else
        match Parse(Decoded(content))
        case Some(v) => Ok(v)
        case None => Err(NotJson(None))
    else if content[0] == 0x7B then ObjectFrom(if LinesIn(content) == [] then [] else LinesIn(content)[1..], ([], []))
    else ElementsDocument(LinesIn(content))
  }

  /** However the content is cut into chunks the result is `ReadContent` of it. */
  method ReadJsonFile(chunks: seq<Bytes>) returns (r: Result<Value>)
    requires forall i :: 0 <= i < |chunks| ==> chunks[i] != []
    ensures r == ReadContent(Concat(chunks))
  {
    var content := Concat(chunks);
    var start := if |content| < 3 then content else content[..3];
    assert IsLineLayout(start) == IsLineLayout(content);
    if !IsLineLayout(start) {
      if |content| > MAX_STRING_CHARS {
        return Err(TooLarge);
      }
      match Parse(Decoded(content))
      case Some(v) => return Ok(v);
      case None => return Err(NotJson(None));
    }
    var lines := LinesOf(chunks);
    if start[0] == 0x7B {
      r := LineLayoutObject(lines);
    } else {
      var elements := ElementsUntilClose(if lines == [] then [] else lines[1..], {"]"});
      if elements.Err? {
        return Err(elements.error);
      }
      r := ExpectNothingAfter(elements.value.1, Container(Unnamed, elements.value.0));
    }
  }
}
