/** The text `JSON.stringify` prints for a value, without an indent. */
module JsonText {
  import opened Json

  function HexDigit(d: nat): char
    requires d < 16
  {
    if d < 10 then DigitChar(d) else ('a' as int + d - 10) as char
  }

  /** Section 7 of RFC 8259: quotes, backslashes and control characters are escaped. */
  function Escaped(c: char): (s: string)
    ensures |s| > 0
  {
    if c == '\"' then "\\\"" else if c == '\\' then "\\\\"
    else if c == '\U{8}' then "\\b" else if c == '\U{C}' then "\\f"
    else if c == '\n' then "\\n" else if c == '\r' then "\\r" else if c == '\t' then "\\t"
    else if c < ' ' then "\\u00" + [HexDigit(c as int / 16), HexDigit(c as int % 16)]
    else [c]
  }

  function EscapedAll(s: string): string {
    if s == "" then "" else Escaped(s[0]) + EscapedAll(s[1..])
  }

  function Quoted(s: string): string {
    "\"" + EscapedAll(s) + "\""
  }

  function AtomText(a: Atom): string {
    match a
    case Null => "null"
    case Bool(b) => if b then "true" else "false"
    case Number(literal) => literal
    case Text(s) => Quoted(s)
  }

  function Joined(texts: seq<string>, separator: string): string {
    if texts == [] then "" else if |texts| == 1 then texts[0]
    else texts[0] + separator + Joined(texts[1..], separator)
  }

  /** The texts of an object's fields, from the texts of their values. */
  function Labelled(names: seq<string>, texts: seq<string>): seq<string> {
    if names == [] || texts == [] then [] else
      [Quoted(names[0]) + ":" + texts[0]] + Labelled(names[1..], texts[1..])
  }

  function Wrapped(names: Names, texts: seq<string>): string {
    match names
    case Unnamed => "[" + Joined(texts, ",") + "]"
    case Named(names) => "{" + Joined(Labelled(names, texts), ",") + "}"
  }

  function Minified(v: Value): string
    decreases v, 1
  {
    match v
    case Primitive(a) => AtomText(a)
    case Container(names, items) => Wrapped(names, MinifiedAll(items))
  }

  function MinifiedAll(vs: seq<Value>): (texts: seq<string>)
    ensures |texts| == |vs|
    decreases vs, 0
  {
    if vs == [] then [] else [Minified(vs[0])] + MinifiedAll(vs[1..])
  }

  predicate Plain(c: char) {
    c >= ' ' && c != '\"' && c != '\\'
  }

  lemma {:induction false} PlainIsUnescaped(s: string)
    requires forall i :: 0 <= i < |s| ==> Plain(s[i])
    ensures EscapedAll(s) == s
  {
    if s != "" {
      PlainIsUnescaped(s[1..]);
      assert Escaped(s[0]) + s[1..] == s;
    }
  }

  lemma {:induction false} MinifiedEach(vs: seq<Value>)
    ensures forall i :: 0 <= i < |vs| ==> MinifiedAll(vs)[i] == Minified(vs[i])
  {
    if vs != [] { MinifiedEach(vs[1..]); }
  }
}
