/** UTF-8, and that splitting its bytes at newlines splits the text it encodes. */
module Utf8 {
  import opened Sequences

  newtype Byte = x: int | 0 <= x < 0x100

  const NEWLINE: Byte := 0x0A

  type Bytes = seq<Byte>

  /** Section 3 of RFC 3629. */
  function EncodedChar(c: char): (bytes: Bytes)
    ensures |bytes| > 0
    ensures NEWLINE in bytes <==> c == '\n'
    ensures c != '\n' ==> NEWLINE !in bytes
    ensures c as int < 0x80 ==> bytes == [c as int as Byte]
    ensures c as int >= 0x80 ==> bytes[0] >= 0x80
  {
    var n := c as int;
    if n < 0x80 then [n as Byte]
    else if n < 0x800 then [(0xC0 + n / 0x40) as Byte, (0x80 + n % 0x40) as Byte]
    else if n < 0x10000 then
      [(0xE0 + n / 0x1000) as Byte, (0x80 + n / 0x40 % 0x40) as Byte, (0x80 + n % 0x40) as Byte]
    else
      [(0xF0 + n / 0x40000) as Byte, (0x80 + n / 0x1000 % 0x40) as Byte,
       (0x80 + n / 0x40 % 0x40) as Byte, (0x80 + n % 0x40) as Byte]
  }

  function Encoded(s: string): Bytes {
    if s == "" then [] else EncodedChar(s[0]) + Encoded(s[1..])
  }

  /** The six bits a continuation byte carries, or -1. */
  function Continuation(b: Byte): int {
    if 0x80 <= b < 0xC0 then b as int - 0x80 else -1
  }

  /** The first character bytes spell, and how many of them spell it.
      A byte that starts no character is read as U+FFFD. */
  function FirstChar(bytes: Bytes): (r: (char, nat))
    requires bytes != []
    ensures 1 <= r.1 <= |bytes|
  {
    var lead := bytes[0] as int;
    var a := if |bytes| > 1 then Continuation(bytes[1]) else -1;
    var b := if |bytes| > 2 then Continuation(bytes[2]) else -1;
    var c := if |bytes| > 3 then Continuation(bytes[3]) else -1;
    if lead < 0x80 then (lead as char, 1)
    else if 0xC2 <= lead < 0xE0 && a >= 0 then (((lead - 0xC0) * 0x40 + a) as char, 2)
    else
      var three := ((lead - 0xE0) * 0x40 + a) * 0x40 + b;
      var four := (((lead - 0xF0) * 0x40 + a) * 0x40 + b) * 0x40 + c;
      if 0xE0 <= lead < 0xF0 && a >= 0 && b >= 0 && three >= 0x800 && !(0xD800 <= three < 0xE000)
        then (three as char, 3)
      else if 0xF0 <= lead < 0xF5 && a >= 0 && b >= 0 && c >= 0 && 0x10000 <= four < 0x110000 then (four as char, 4)
      else ('\U{FFFD}', 1)
  }

  function Decoded(bytes: Bytes): string
    decreases |bytes|
  {
    if bytes == [] then "" else
      var (c, n) := FirstChar(bytes);
      [c] + Decoded(bytes[n..])
  }

  lemma LongCharOf(c: char, rest: Bytes)
    requires c as int >= 0x10000
    ensures FirstChar(EncodedChar(c) + rest) == (c, 4)
  {
    var n, bytes := c as int, EncodedChar(c) + rest;
    assert bytes[0] as int == 0xF0 + n / 0x40000 && bytes[1] as int == 0x80 + n / 0x1000 % 0x40;
    assert bytes[2] as int == 0x80 + n / 0x40 % 0x40 && bytes[3] as int == 0x80 + n % 0x40;
    assert n / 0x1000 == n / 0x40 / 0x40 && n / 0x40000 == n / 0x1000 / 0x40;
  }

  lemma FirstCharOf(c: char, rest: Bytes)
    ensures FirstChar(EncodedChar(c) + rest) == (c, |EncodedChar(c)|)
  {
    var n, bytes := c as int, EncodedChar(c) + rest;
    if n < 0x80 {
    } else if n < 0x800 {
      assert bytes[0] as int == 0xC0 + n / 0x40 && bytes[1] as int == 0x80 + n % 0x40;
    } else if n < 0x10000 {
      assert bytes[0] as int == 0xE0 + n / 0x1000 && bytes[1] as int == 0x80 + n / 0x40 % 0x40;
      assert bytes[2] as int == 0x80 + n % 0x40;
      assert n / 0x1000 == n / 0x40 / 0x40;
    } else {
      LongCharOf(c, rest);
    }
  }

  lemma {:induction false} DecodedEncoded(s: string)
    ensures Decoded(Encoded(s)) == s
  {
    if s != "" {
      var bytes := Encoded(s);
      FirstCharOf(s[0], Encoded(s[1..]));
      assert bytes[|EncodedChar(s[0])|..] == Encoded(s[1..]);
      DecodedEncoded(s[1..]);
      assert [s[0]] + s[1..] == s;
    }
  }

  lemma {:induction false} EncodedBoth(a: string, b: string)
    ensures Encoded(a + b) == Encoded(a) + Encoded(b)
  {
    if a == "" {
      assert a + b == b;
    } else {
      assert (a + b)[1..] == a[1..] + b;
      EncodedBoth(a[1..], b);
    }
  }

  lemma {:induction false} NewlineEncoded(s: string)
    ensures NEWLINE in Encoded(s) <==> '\n' in s
    ensures Encoded(s) == [] <==> s == ""
  {
    if s != "" {
      NewlineEncoded(s[1..]);
      assert '\n' in s <==> s[0] == '\n' || '\n' in s[1..];
    }
  }

  // ------------------------------------------------------------------ lines

  /** The lines of `s`: a final newline ends the last line and starts no other. */
  function Split<T(==)>(s: seq<T>, newline: T): seq<seq<T>>
    decreases |s|
  {
    if s == [] then [] else
      var n := IndexOf(s, newline);
      if n == |s| then [s] else [s[..n]] + Split(s[n + 1..], newline)
  }

  lemma {:induction false} IndexAfter<T>(line: seq<T>, rest: seq<T>, x: T)
    requires x !in line
    ensures IndexOf(line + [x] + rest, x) == |line|
  {
    var s := line + [x] + rest;
    if line != [] {
      assert s[1..] == line[1..] + [x] + rest;
      IndexAfter(line[1..], rest, x);
    }
  }

  lemma SplitFirst<T>(line: seq<T>, rest: seq<T>, x: T)
    requires x !in line
    ensures Split(line + [x] + rest, x) == [line] + Split(rest, x)
  {
    var s := line + [x] + rest;
    IndexAfter(line, rest, x);
    assert s[..|line|] == line && s[|line| + 1..] == rest;
  }

  lemma SplitLast<T>(line: seq<T>, x: T)
    requires x !in line && line != []
    ensures Split(line, x) == [line]
  {
  }

  function DecodedAll(lines: seq<Bytes>): (r: seq<string>)
    ensures |r| == |lines|
    ensures forall i :: 0 <= i < |r| ==> r[i] == Decoded(lines[i])
  {
    if lines == [] then [] else [Decoded(lines[0])] + DecodedAll(lines[1..])
  }

  /** A character other than a newline never has the newline byte in it,
      so splitting the bytes of a text splits the text. */
  lemma {:induction false} SplitEncoded(s: string)
    ensures DecodedAll(Split(Encoded(s), NEWLINE)) == Split(s, '\n')
    decreases |s|
  {
    NewlineEncoded(s);
    var n := IndexOf(s, '\n');
    if n == |s| {
      assert s[..n] == s;
      DecodedEncoded(s);
      if s != "" { SplitLast(Encoded(s), NEWLINE); }
    } else {
      var line, rest := s[..n], s[n + 1..];
      assert s == line + "\n" + rest;
      EncodedBoth(line + "\n", rest);
      EncodedBoth(line, "\n");
      assert Encoded("\n") == [NEWLINE] by { assert "\n"[1..] == ""; }
      NewlineEncoded(line);
      SplitFirst(Encoded(line), Encoded(rest), NEWLINE);
      DecodedEncoded(line);
      SplitEncoded(rest);
    }
  }

  // ------------------------------------------------------------ what is decoded

  lemma Bits(a: nat, b: nat)
    requires b < 0x40
    ensures (a * 0x40 + b) / 0x40 == a && (a * 0x40 + b) % 0x40 == b
  {
  }

  lemma BeginsWith(bytes: Bytes, c: char)
    requires EncodedChar(c) <= bytes
    ensures FirstChar(bytes) == (c, |EncodedChar(c)|)
  {
    var n := |EncodedChar(c)|;
    FirstCharOf(c, bytes[n..]);
    assert bytes == EncodedChar(c) + bytes[n..];
  }

  /** What is read as a character is its encoding, or one byte that begins none. */
  lemma FirstCharIsEncoded(bytes: Bytes)
    requires bytes != []
    ensures var (c, n) := FirstChar(bytes); bytes[..n] == EncodedChar(c) || (c == '\U{FFFD}' && n == 1)
    ensures var (c, n) := FirstChar(bytes);
            c == '\U{FFFD}' && n == 1 ==> forall e :: !(EncodedChar(e) <= bytes)
  {
    var (c, n) := FirstChar(bytes);
    var lead := bytes[0] as int;
    if n == 2 {
      Bits(lead - 0xC0, Continuation(bytes[1]));
    } else if n == 3 {
      Bits((lead - 0xE0) * 0x40 + Continuation(bytes[1]), Continuation(bytes[2]));
      Bits(lead - 0xE0, Continuation(bytes[1]));
    } else if n == 4 {
      LongCharEncoded(bytes);
    } else if c == '\U{FFFD}' {
      forall e
        ensures !(EncodedChar(e) <= bytes)
      {
        if EncodedChar(e) <= bytes {
          BeginsWith(bytes, e);
        }
      }
    }
  }

  lemma LongCharEncoded(bytes: Bytes)
    requires bytes != [] && FirstChar(bytes).1 == 4
    ensures bytes[..4] == EncodedChar(FirstChar(bytes).0)
  {
    var lead, a, b, c := bytes[0] as int - 0xF0, Continuation(bytes[1]), Continuation(bytes[2]), Continuation(bytes[3]);
    Bits((lead * 0x40 + a) * 0x40 + b, c);
    Bits(lead * 0x40 + a, b);
    Bits(lead, a);
    var n := FirstChar(bytes).0 as int;
    assert n / 0x1000 == n / 0x40 / 0x40 && n / 0x40000 == n / 0x1000 / 0x40;
  }
}
