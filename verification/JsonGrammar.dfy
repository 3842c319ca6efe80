/** The JSON grammar as trees that say how a text is spelled, and that the parser reads exactly what the trees spell. */
module JsonGrammar {
  import opened Json
  import opened Sequences
  import opened JsonText
  import opened JsonParse

  // ------------------------------------------------------------------ the grammar

  /** A character of a string and how it is spelled: as itself, as a letter or as one or two units to base 16. */
  datatype Spelling =
    | Itself(c: char)
    | Letter(c: char, letter: char)
    | Unit(c: char, digits: string)
    | Pair(c: char, high: string, low: string)

  predicate IsHexDigit(c: char, n: nat) {
    n < 16 && (c == "0123456789abcdef"[n] || c == "0123456789ABCDEF"[n])
  }

  /** Four digits to base 16. */
  ghost predicate SpellsUnit(digits: string, unit: int) {
    |digits| == 4 && exists a: nat, b: nat, c: nat, d: nat ::
      && IsHexDigit(digits[0], a) && IsHexDigit(digits[1], b) && IsHexDigit(digits[2], c) && IsHexDigit(digits[3], d)
      && unit == 4096 * a + 256 * b + 16 * c + d
  }

  /** Section 7 of RFC 8259: control characters, quotes and backslashes are escaped, and a character beyond U+FFFF may
      be spelled as the two halves of its surrogate pair. */
  ghost predicate IsSpelling(s: Spelling) {
    match s
    case Itself(c) => (c as int) >= 0x20 && c != '\"' && c != '\\'
    case Letter(c, letter) =>
      (letter, c) in {('\"', '\"'), ('\\', '\\'), ('/', '/'), ('b', '\U{8}'), ('f', '\U{C}'), ('n', '\n'), ('r', '\r'),
                      ('t', '\t')}
    case Unit(c, digits) => SpellsUnit(digits, c as int)
    case Pair(c, high, low) =>
      exists h: nat, l: nat :: SpellsUnit(high, h) && SpellsUnit(low, l) && 0xD800 <= h < 0xDC00 && 0xDC00 <= l < 0xE000
        && (c as int) == 0x10000 + 0x400 * (h - 0xD800) + (l - 0xDC00)
  }

  function SpellingText(s: Spelling): string {
    match s
    case Itself(c) => [c]
    case Letter(_, letter) => ['\\', letter]
    case Unit(_, digits) => "\\u" + digits
    case Pair(_, high, low) => "\\u" + high + "\\u" + low
  }

  function SpellingsText(ss: seq<Spelling>): string {
    if ss == [] then "" else SpellingText(ss[0]) + SpellingsText(ss[1..])
  }

  function Spelled(ss: seq<Spelling>): (r: string)
    ensures |r| == |ss| && forall i :: 0 <= i < |r| ==> r[i] == ss[i].c
  {
    if ss == [] then "" else [ss[0].c] + Spelled(ss[1..])
  }

  ghost predicate AreSpellings(ss: seq<Spelling>) {
    forall i :: 0 <= i < |ss| ==> IsSpelling(ss[i])
  }

  /** Space, tab, line feed and carriage return; section 2 of RFC 8259. */
  predicate IsGap(s: string): (r: bool)
    ensures r <==> AllSpace(s)
  {
    forall i :: 0 <= i < |s| ==> s[i] as int in {0x20, 0x09, 0x0A, 0x0D}
  }

  predicate AreDigits(s: string) {
    forall i :: 0 <= i < |s| ==> '0' <= s[i] <= '9'
  }

  /** The parts of a number; section 6 of RFC 8259. */
  datatype Numeral = Numeral(minus: string, whole: string, fraction: string, letter: string, sign: string,
                             exponent: string)

  predicate IsNumeral(n: Numeral) {
    && n.minus in {"", "-"}
    && n.whole != "" && AreDigits(n.whole) && (n.whole[0] == '0' ==> |n.whole| == 1)
    && (n.fraction == "" || (|n.fraction| > 1 && n.fraction[0] == '.' && AreDigits(n.fraction[1..])))
    && (if n.letter == "" then n.sign == "" && n.exponent == ""
        else n.letter in {"e", "E"} && n.sign in {"", "+", "-"} && n.exponent != "" && AreDigits(n.exponent))
  }

  function NumeralText(n: Numeral): string {
    n.minus + (n.whole + (n.fraction + (n.letter + (n.sign + n.exponent))))
  }

  /** A value as it is spelled. */
  datatype Tree =
    | Word(atom: Atom)
    | Figure(numeral: Numeral)
    | Quote(spellings: seq<Spelling>)
    | Empty(names: Names, gap: string)
    | List(slots: seq<Slot>)
    | Members(members: seq<Member>)

  /** A value with the space around it. */
  datatype Slot = Slot(before: string, tree: Tree, after: string)

  /** A key with the space around it, and a value with the space around it. */
  datatype Member = Member(before: string, key: seq<Spelling>, after: string, slot: Slot)

  ghost predicate IsTree(t: Tree)
    decreases t, 1
  {
    match t
    case Word(atom) => atom.Null? || atom.Bool?
    case Figure(numeral) => IsNumeral(numeral)
    case Quote(spellings) => AreSpellings(spellings)
    case Empty(names, gap) => IsGap(gap) && names in {Unnamed, Named([])}
    case List(slots) => slots != [] && forall i :: 0 <= i < |slots| ==> IsSlot(slots[i])
    case Members(members) => members != [] && forall i :: 0 <= i < |members| ==> IsMember(members[i])
  }

  ghost predicate IsSlot(s: Slot)
    decreases s, 0
  {
    IsGap(s.before) && IsGap(s.after) && IsTree(s.tree)
  }

  ghost predicate IsMember(m: Member)
    decreases m, 0
  {
    IsGap(m.before) && IsGap(m.after) && AreSpellings(m.key) && IsSlot(m.slot)
  }

  function TreeText(t: Tree): string
    decreases t, 1
  {
    match t
    case Word(atom) => (match atom case Null => "null" case Bool(true) => "true" case _ => "false")
    case Figure(numeral) => NumeralText(numeral)
    case Quote(spellings) => "\"" + (SpellingsText(spellings) + "\"")
    case Empty(names, gap) => if names.Unnamed? then "[" + (gap + "]") else "{" + (gap + "}")
    case List(slots) => "[" + SlotsText(slots)
    case Members(members) => "{" + MembersText(members)
  }

  function SlotText(s: Slot): string
    decreases s, 0
  {
    s.before + (TreeText(s.tree) + s.after)
  }

  function MemberText(m: Member): string
    decreases m, 0
  {
    m.before + ("\"" + (SpellingsText(m.key) + ("\"" + (m.after + (":" + SlotText(m.slot))))))
  }

  /** Items with commas between them, and the bracket. */
  function SlotsText(slots: seq<Slot>): string
    decreases slots, 0
  {
    if slots == [] then "]" else SlotText(slots[0]) + if |slots| == 1 then "]" else "," + SlotsText(slots[1..])
  }

  function MembersText(members: seq<Member>): string
    decreases members, 0
  {
    if members == [] then "}" else MemberText(members[0]) + if |members| == 1 then "}"
      else "," + MembersText(members[1..])
  }

  /** The value spelled.  An object has each key once, where it is first, with the value that is last. */
  function ValueOf(t: Tree): Value
    decreases t, 1
  {
    match t
    case Word(atom) => Primitive(atom)
    case Figure(numeral) => Primitive(Number(NumeralText(numeral)))
    case Quote(spellings) => Primitive(Text(Spelled(spellings)))
    case Empty(names, _) => Container(names, [])
    case List(slots) => Container(Unnamed, ValuesOf(slots))
    case Members(members) =>
      var last := LastFields(KeysIn(members), ValuesIn(members));
      Container(Named(last.0), last.1)
  }

  function ValuesOf(slots: seq<Slot>): (r: seq<Value>)
    ensures |r| == |slots|
    decreases slots, 0
  {
    if slots == [] then [] else [ValueOf(slots[0].tree)] + ValuesOf(slots[1..])
  }

  function ValuesIn(members: seq<Member>): (r: seq<Value>)
    ensures |r| == |members|
    decreases members, 0
  {
    if members == [] then [] else [ValueOf(members[0].slot.tree)] + ValuesIn(members[1..])
  }

  function KeysIn(members: seq<Member>): (r: seq<string>)
    ensures |r| == |members| && forall i :: 0 <= i < |r| ==> r[i] == Spelled(members[i].key)
  {
    if members == [] then [] else [Spelled(members[0].key)] + KeysIn(members[1..])
  }

  /** Where an element is last. */
  function LastIndex<T(==)>(s: seq<T>, x: T): (n: nat)
    requires x in s
    ensures n < |s| && s[n] == x && x !in s[n + 1..]
  {
    if x in s[1..] then 1 + LastIndex(s[1..], x) else 0
  }

  function LastValues(names: seq<string>, keys: seq<string>, vs: seq<Value>): (r: seq<Value>)
    requires |keys| == |vs| && forall i :: 0 <= i < |names| ==> names[i] in keys
    ensures |r| == |names| && forall i :: 0 <= i < |r| ==> r[i] == vs[LastIndex(keys, names[i])]
  {
    if names == [] then [] else [vs[LastIndex(keys, names[0])]] + LastValues(names[1..], keys, vs)
  }

  function Without<T(==, !new)>(s: seq<T>, x: T): (r: seq<T>)
    ensures forall y :: y in r <==> y in s && y != x
  {
    if s == [] then [] else (if s[0] == x then [] else [s[0]]) + Without(s[1..], x)
  }

  /** Each once, where it is first. */
  function Firsts<T(==, !new)>(s: seq<T>): (r: seq<T>)
    ensures forall y :: y in r <==> y in s
  {
    if s == [] then [] else [s[0]] + Without(Firsts(s[1..]), s[0])
  }

  /** Each key where it is first, with the value that is last. */
  function LastFields(keys: seq<string>, vs: seq<Value>): (r: JsonParse.Fields)
    requires |keys| == |vs|
  {
    (Firsts(keys), LastValues(Firsts(keys), keys, vs))
  }

  // ------------------------------------------------------------- what is spelled is read

  lemma HexDigitValue(c: char, n: nat)
    ensures IsHexDigit(c, n) <==> n < 16 && HexValue(c) == n
  {
    assert "0123456789abcdef"[..10] == "0123456789ABCDEF"[..10] == "0123456789";
  }

  lemma UnitExactly(digits: string, unit: nat)
    requires |digits| == 4
    ensures SpellsUnit(digits, unit) <==> HexUnit(digits) == unit
  {
    var a, b, c, d := HexValue(digits[0]), HexValue(digits[1]), HexValue(digits[2]), HexValue(digits[3]);
    forall c: char, n: nat
      ensures IsHexDigit(c, n) <==> n < 16 && HexValue(c) == n
    {
      HexDigitValue(c, n);
    }
    if HexUnit(digits) == unit {
      assert IsHexDigit(digits[0], a) && IsHexDigit(digits[1], b) && IsHexDigit(digits[2], c) &&
             IsHexDigit(digits[3], d);
    }
  }

  lemma LetterReads(text: string, letter: char, c: char, more: string)
    requires text == ['\\', letter] + more && Simple(letter) == Some(c)
    ensures ParseEscape(text) == Parsed(c, more)
  {
    assert text[2..] == more;
  }

  lemma UnitReads(text: string, digits: string, c: char, more: string)
    requires |digits| == 4 && HexUnit(digits) == c as int && text == "\\u" + digits + more
    ensures ParseEscape(text) == Parsed(c, more)
  {
    assert text[2..6] == digits && text[6..] == more;
  }

  lemma PairReads(text: string, high: string, low: string, h: nat, l: nat, more: string)
    requires |high| == 4 && |low| == 4 && HexUnit(high) == h && HexUnit(low) == l
    requires text == "\\u" + high + "\\u" + low + more && 0xD800 <= h < 0xDC00 && 0xDC00 <= l < 0xE000
    ensures ParseEscape(text) == Parsed((0x10000 + (h - 0xD800) * 0x400 + (l - 0xDC00)) as char, more)
  {
    assert text[2..6] == high && text[6] == '\\' && text[7] == 'u';
    assert text[8..12] == low && text[12..] == more;
  }

  lemma PairUnits(c: char, high: string, low: string) returns (h: nat, l: nat)
    requires IsSpelling(Pair(c, high, low))
    ensures |high| == 4 && |low| == 4 && HexUnit(high) == h && HexUnit(low) == l
    ensures 0xD800 <= h < 0xDC00 && 0xDC00 <= l < 0xE000
    ensures (c as int) == 0x10000 + (h - 0xD800) * 0x400 + (l - 0xDC00)
  {
    h, l :| SpellsUnit(high, h) && SpellsUnit(low, l) && 0xD800 <= h < 0xDC00 && 0xDC00 <= l < 0xE000
      && (c as int) == 0x10000 + 0x400 * (h - 0xD800) + (l - 0xDC00);
    UnitExactly(high, h);
    UnitExactly(low, l);
  }

  lemma PairSpellingReads(c: char, high: string, low: string, text: string, more: string)
    requires IsSpelling(Pair(c, high, low)) && text == "\\u" + high + "\\u" + low + more
    ensures ParseEscape(text) == Parsed(c, more)
  {
    var h, l := PairUnits(c, high, low);
    PairReads(text, high, low, h, l, more);
  }

  lemma UnitSpellingReads(c: char, digits: string, more: string)
    requires IsSpelling(Unit(c, digits))
    ensures ParseEscape("\\u" + digits + more) == Parsed(c, more)
  {
    UnitExactly(digits, c as int);
    UnitReads("\\u" + digits + more, digits, c, more);
  }

  lemma SpellingReads(s: Spelling, more: string)
    requires IsSpelling(s) && !s.Itself?
    ensures ParseEscape(SpellingText(s) + more) == Parsed(s.c, more)
  {
    match s
    case Letter(c, letter) => LetterReads(SpellingText(s) + more, letter, c, more);
    case Unit(c, digits) => UnitSpellingReads(c, digits, more);
    case Pair(c, high, low) => PairSpellingReads(c, high, low, SpellingText(s) + more, more);
  }

  /** A string is read as the characters its spellings are of. */
  lemma {:induction false} SpellingsRead(ss: seq<Spelling>, rest: string)
    requires AreSpellings(ss)
    ensures ParseChars(SpellingsText(ss) + ("\"" + rest)) == Parsed(Spelled(ss), rest)
    decreases |ss|
  {
    var text := SpellingsText(ss) + ("\"" + rest);
    if ss == [] {
      assert text == "\"" + rest && text[1..] == rest;
    } else {
      var more := SpellingsText(ss[1..]) + ("\"" + rest);
      assert text == SpellingText(ss[0]) + more;
      SpellingsRead(ss[1..], rest);
      if ss[0].Itself? { assert text[1..] == more; } else { SpellingReads(ss[0], more); }
    }
  }

  lemma {:induction false} DigitsSkipped(digits: string, rest: string)
    requires AreDigits(digits) && (rest == "" || !Digit(rest[0]))
    ensures SkipDigits(digits + rest) == rest
  {
    if digits == "" {
      assert digits + rest == rest;
    } else {
      assert (digits + rest)[1..] == digits[1..] + rest;
      DigitsSkipped(digits[1..], rest);
    }
  }

  lemma ExponentReads(letter: string, sign: string, exponent: string)
    requires if letter == "" then sign == "" && exponent == ""
             else letter in {"e", "E"} && sign in {"", "+", "-"} && exponent != "" && AreDigits(exponent)
    ensures IsExponentText(letter + (sign + exponent))
    ensures letter + (sign + exponent) == "" || (!Digit((letter + (sign + exponent))[0]) &&
              (letter + (sign + exponent))[0] != '.')
  {
    var s := letter + (sign + exponent);
    if letter != "" {
      DigitsSkipped(exponent, "");
      assert exponent + "" == exponent;
      assert s[0] == letter[0] && s[1..] == sign + exponent;
      if sign == "" {
        assert sign + exponent == exponent && s[1] == exponent[0];
      } else {
        assert s[1] == sign[0] && s[2..] == exponent;
      }
    }
  }

  lemma FractionReads(fraction: string, more: string)
    requires fraction == "" || (|fraction| > 1 && fraction[0] == '.' && AreDigits(fraction[1..]))
    requires IsExponentText(more) && (more == "" || (!Digit(more[0]) && more[0] != '.'))
    ensures IsFractionText(fraction + more)
    ensures fraction + more == "" || !Digit((fraction + more)[0])
  {
    var s := fraction + more;
    if fraction == "" {
      assert s == more;
    } else {
      assert s[1..] == fraction[1..] + more && s[1] == fraction[1..][0];
      DigitsSkipped(fraction[1..], more);
    }
  }

  lemma WholeReads(whole: string, more: string)
    requires whole != "" && AreDigits(whole) && (whole[0] == '0' ==> |whole| == 1)
    requires IsFractionText(more) && (more == "" || !Digit(more[0]))
    ensures IsNumberText(whole + more) && IsNumberText("-" + (whole + more))
  {
    var s := whole + more;
    DigitsSkipped(whole, more);
    assert s[0] == whole[0] && ("-" + s)[1..] == s;
    if whole[0] == '0' { assert s[1..] == more; }
  }

  lemma NumeralReads(n: Numeral)
    requires IsNumeral(n)
    ensures IsNumberText(NumeralText(n))
  {
    ExponentReads(n.letter, n.sign, n.exponent);
    FractionReads(n.fraction, n.letter + (n.sign + n.exponent));
    WholeReads(n.whole, n.fraction + (n.letter + (n.sign + n.exponent)));
    assert "" + (n.whole + (n.fraction + (n.letter + (n.sign + n.exponent)))) ==
           n.whole + (n.fraction + (n.letter + (n.sign + n.exponent)));
  }

  lemma {:induction false} DigitsTaken(s: string) returns (digits: string)
    ensures AreDigits(digits) && s == digits + SkipDigits(s) && (SkipDigits(s) == "" || !Digit(SkipDigits(s)[0]))
    ensures s != "" && Digit(s[0]) ==> digits != "" && digits[0] == s[0]
  {
    if s != "" && Digit(s[0]) {
      var more := DigitsTaken(s[1..]);
      digits := [s[0]] + more;
      assert s == [s[0]] + s[1..];
    } else {
      digits := "";
    }
  }

  lemma NumberHasParts(literal: string) returns (n: Numeral)
    requires IsNumberText(literal)
    ensures IsNumeral(n) && NumeralText(n) == literal
  {
    var minus := if literal[0] == '-' then "-" else "";
    var unsigned := if literal[0] == '-' then literal[1..] else literal;
    assert literal == minus + unsigned;
    var whole;
    if unsigned[0] == '0' {
      whole := "0";
      assert unsigned == whole + unsigned[1..];
    } else {
      whole := DigitsTaken(unsigned);
    }
    var fraction, letter, sign, exponent := FractionHasParts(if unsigned[0] == '0' then unsigned[1..]
                                                             else SkipDigits(unsigned));
    n := Numeral(minus, whole, fraction, letter, sign, exponent);
  }

  lemma FractionHasParts(s: string) returns (fraction: string, letter: string, sign: string, exponent: string)
    requires IsFractionText(s)
    ensures s == fraction + (letter + (sign + exponent))
    ensures fraction == "" || (|fraction| > 1 && fraction[0] == '.' && AreDigits(fraction[1..]))
    ensures if letter == "" then sign == "" && exponent == ""
            else letter in {"e", "E"} && sign in {"", "+", "-"} && exponent != "" && AreDigits(exponent)
  {
    if s != "" && s[0] == '.' {
      var after := s[1..];
      var digits := DigitsTaken(after);
      letter, sign, exponent := ExponentHasParts(SkipDigits(after));
      fraction := "." + digits;
      DotBefore(s, after, digits, SkipDigits(after));
    } else {
      fraction := "";
      letter, sign, exponent := ExponentHasParts(s);
      assert s == fraction + s;
    }
  }

  lemma DotBefore(s: string, after: string, digits: string, rest: string)
    requires s != "" && s[0] == '.' && after == s[1..] && after == digits + rest
    ensures s == ("." + digits) + rest && ("." + digits)[1..] == digits
  {
  }

  lemma ExponentHasParts(s: string) returns (letter: string, sign: string, exponent: string)
    requires IsExponentText(s)
    ensures s == letter + (sign + exponent)
    ensures if letter == "" then sign == "" && exponent == ""
            else letter in {"e", "E"} && sign in {"", "+", "-"} && exponent != "" && AreDigits(exponent)
  {
    if s == "" {
      letter, sign, exponent := "", "", "";
    } else {
      var signed := |s| > 1 && (s[1] == '+' || s[1] == '-');
      letter, sign := [s[0]], if signed then [s[1]] else "";
      exponent := DigitsTaken(if signed then s[2..] else s[1..]);
      assert exponent == if signed then s[2..] else s[1..];
      assert s == [s[0]] + s[1..];
      if signed { assert s[1..] == [s[1]] + s[2..]; }
    }
  }

  lemma {:induction false} WithoutNone<T(!new)>(s: seq<T>, x: T)
    requires x !in s
    ensures Without(s, x) == s
  {
    if s != [] {
      WithoutNone(s[1..], x);
      assert [s[0]] + s[1..] == s;
    }
  }

  lemma OneBefore<T>(x: T, s: seq<T>)
    requires Distinct(s)
    ensures x !in s ==> Distinct([x] + s)
    ensures [] + s == s
  {
  }

  lemma {:induction false} WithoutDistinct<T(!new)>(s: seq<T>, x: T)
    requires Distinct(s)
    ensures Distinct(Without(s, x))
  {
    if s != [] {
      WithoutDistinct(s[1..], x);
      OneBefore(s[0], Without(s[1..], x));
    }
  }

  lemma {:induction false} FirstsDistinct<T(!new)>(s: seq<T>)
    ensures Distinct(Firsts(s))
  {
    if s != [] {
      FirstsDistinct(s[1..]);
      WithoutDistinct(Firsts(s[1..]), s[0]);
      OneBefore(s[0], Without(Firsts(s[1..]), s[0]));
    }
  }

  lemma OthersFirst<T>(first: T, more: seq<T>, at: nat)
    requires at < |more|
    ensures [first] + (more[..at] + more[at + 1..]) == ([first] + more)[..at + 1] + ([first] + more)[at + 2..]
  {
  }

  /** Of distinct ones, all but `x` are those before it and those after it. */
  lemma {:induction false} WithoutAt<T(!new)>(s: seq<T>, x: T, at: nat)
    requires Distinct(s) && at == IndexOf(s, x) < |s|
    ensures Without(s, x) == s[..at] + s[at + 1..]
  {
    if s[0] == x {
      WithoutNone(s[1..], x);
      assert s[..0] + s[1..] == s[1..];
    } else {
      WithoutAt(s[1..], x, at - 1);
      OthersFirst(s[0], s[1..], at - 1);
      assert s == [s[0]] + s[1..];
    }
  }

  /** Where an element was before the one at `at` was moved to the front. */
  function Moved(at: nat, i: nat): nat {
    if i == 0 then at else if i <= at then i - 1 else i
  }

  ghost predicate IsMoved<T>(s: seq<T>, at: nat, moved: seq<T>)
    requires at < |s|
  {
    |moved| == |s| && forall i :: 0 <= i < |s| ==> moved[i] == s[Moved(at, i)]
  }

  lemma ToFront<T>(s: seq<T>, at: nat, moved: seq<T>)
    requires at < |s| && moved == [s[at]] + s[..at] + s[at + 1..]
    ensures IsMoved(s, at, moved)
  {
  }

  lemma LastIndexFirst(k: string, keys: seq<string>, x: string)
    requires x in keys
    ensures LastIndex([k] + keys, x) == 1 + LastIndex(keys, x)
  {
    assert ([k] + keys)[1..] == keys;
  }

  lemma LastIndexOnly(k: string, keys: seq<string>)
    requires k !in keys
    ensures LastIndex([k] + keys, k) == 0
  {
    assert ([k] + keys)[1..] == keys;
  }

  /** Each name has the value written last for it. */
  ghost predicate HaveLast(fields: JsonParse.Fields, keys: seq<string>, vs: seq<Value>)
    requires |keys| == |vs|
  {
    && |fields.0| == |fields.1|
    && forall i :: 0 <= i < |fields.0| ==> fields.0[i] in keys && fields.1[i] == vs[LastIndex(keys, fields.0[i])]
  }

  lemma NewMember(k: string, v: Value, keys: seq<string>, vs: seq<Value>, others: JsonParse.Fields)
    requires |keys| == |vs| && HaveLast(others, keys, vs) && k !in keys
    ensures HaveLast(([k] + others.0, [v] + others.1), [k] + keys, [v] + vs)
  {
    LastIndexOnly(k, keys);
    forall i | 0 <= i < |others.0|
      ensures LastIndex([k] + keys, others.0[i]) == 1 + LastIndex(keys, others.0[i])
    {
      LastIndexFirst(k, keys, others.0[i]);
    }
  }

  lemma OldMember(k: string, v: Value, keys: seq<string>, vs: seq<Value>, others: JsonParse.Fields, at: nat,
                  moved: JsonParse.Fields)
    requires |keys| == |vs| && HaveLast(others, keys, vs) && at < |others.0| && others.0[at] == k
    requires IsMoved(others.0, at, moved.0) && IsMoved(others.1, at, moved.1)
    ensures HaveLast(moved, [k] + keys, [v] + vs)
  {
    forall i | 0 <= i < |others.0|
      ensures moved.0[i] in [k] + keys && moved.1[i] == ([v] + vs)[LastIndex([k] + keys, moved.0[i])]
    {
      var name := others.0[Moved(at, i)];
      assert name in keys && moved.0[i] == name;
      LastIndexFirst(k, keys, name);
    }
  }

  lemma Regrouped<T>(a: seq<T>, b: seq<T>, c: seq<T>)
    ensures a + (b + c) == a + b + c
  {
  }

  lemma FirstsOfMore<T(!new)>(k: T, keys: seq<T>)
    ensures Firsts([k] + keys) == [k] + Without(Firsts(keys), k)
  {
    assert ([k] + keys)[1..] == keys;
  }

  lemma NamesFirst<T(!new)>(k: T, keys: seq<T>, names: seq<T>, at: nat)
    requires names == Firsts(keys) && at == IndexOf(names, k)
    ensures Firsts([k] + keys) == if k in keys then [k] + names[..at] + names[at + 1..] else [k] + names
  {
    FirstsOfMore(k, keys);
    FirstsDistinct(keys);
    if k in keys {
      WithoutAt(names, k, at);
      Regrouped([k], names[..at], names[at + 1..]);
    } else {
      WithoutNone(names, k);
    }
  }

  lemma AgainHasLast(k: string, v: Value, keys: seq<string>, vs: seq<Value>, others: JsonParse.Fields, at: nat,
                     found: JsonParse.Fields)
    requires |keys| == |vs| && HaveLast(others, keys, vs) && k in others.0 && at == IndexOf(others.0, k)
    requires found == WithFirst(k, v, others)
    ensures HaveLast(found, [k] + keys, [v] + vs)
    ensures found.0 == [k] + others.0[..at] + others.0[at + 1..]
  {
    ToFront(others.0, at, found.0);
    ToFront(others.1, at, found.1);
    OldMember(k, v, keys, vs, others, at, found);
  }

  /** A member before others is the first of its key, and the last if there is no other. */
  lemma FirstMember(k: string, v: Value, keys: seq<string>, vs: seq<Value>, others: JsonParse.Fields)
    requires |keys| == |vs| && others == LastFields(keys, vs)
    ensures WithFirst(k, v, others) == LastFields([k] + keys, [v] + vs)
  {
    var at, found := IndexOf(others.0, k), WithFirst(k, v, others);
    NamesFirst(k, keys, others.0, at);
    if k in keys {
      AgainHasLast(k, v, keys, vs, others, at, found);
    } else {
      NewMember(k, v, keys, vs, others);
    }
    LastAreOne(found, LastFields([k] + keys, [v] + vs), [k] + keys, [v] + vs);
  }

  lemma LastAreOne(a: JsonParse.Fields, b: JsonParse.Fields, keys: seq<string>, vs: seq<Value>)
    requires |keys| == |vs| && HaveLast(a, keys, vs) && HaveLast(b, keys, vs) && a.0 == b.0
    ensures a == b
  {
    assert a.1 == b.1;
  }

  lemma QuoteReads(ss: seq<Spelling>, rest: string)
    requires AreSpellings(ss)
    ensures ParseValue("\"" + (SpellingsText(ss) + "\"") + rest) == Parsed(Primitive(Text(Spelled(ss))), rest)
  {
    var inside := SpellingsText(ss) + ("\"" + rest);
    SpellingsRead(ss, rest);
    Regrouped(SpellingsText(ss), "\"", rest);
    Regrouped("\"", SpellingsText(ss) + "\"", rest);
    assert ("\"" + inside)[1..] == inside;
  }

  lemma GapReads(open: char, gap: string, close: char, rest: string, names: Names)
    requires AllSpace(gap)
    requires if names.Unnamed? then open == '[' && close == ']' else open == '{' && close == '}' && names == Named([])
    ensures ParseValue([open] + (gap + [close]) + rest) == Parsed(Container(names, []), rest)
  {
    var text := [open] + (gap + [close]) + rest;
    GapThen(gap, close, rest);
    assert text[1..] == gap + ([close] + rest);
    assert ([close] + rest)[1..] == rest;
  }

  lemma SlotReads(s: Slot, text: string, more: string)
    requires AllSpace(s.before) && Reads(text, ValueOf(s.tree)) && Ends(s.after + more)
    ensures ParseValue(s.before + (text + s.after) + more) == Parsed(ValueOf(s.tree), s.after + more)
    ensures SkipSpace(s.before + (text + s.after) + more) == text + (s.after + more)
  {
    ReadInGap(s.before, text, ValueOf(s.tree), s.after + more);
    assert s.before + (text + s.after) + more == s.before + (text + (s.after + more));
  }

  lemma LastSlotReads(s: Slot, slots: seq<Slot>, text: string, rest: string)
    requires slots == [s] && IsSlot(s) && text == TreeText(s.tree) && Reads(text, ValueOf(s.tree))
    ensures ParseItems(SlotsText(slots) + rest) == Parsed(ValuesOf(slots), rest)
  {
    var more := "]" + rest;
    assert SlotsText(slots) + rest == s.before + (text + s.after) + more;
    GapThen(s.after, ']', rest);
    SlotReads(s, text, more);
    LastItem(SlotsText(slots) + rest, ValueOf(s.tree), s.after, rest);
    assert slots[1..] == [] && [ValueOf(s.tree)] + [] == [ValueOf(s.tree)];
  }

  lemma NextSlotReads(s: Slot, slots: seq<Slot>, text: string, rest: string)
    requires |slots| > 1 && s == slots[0] && IsSlot(s) && text == TreeText(s.tree) && Reads(text, ValueOf(s.tree))
    requires ParseItems(SlotsText(slots[1..]) + rest) == Parsed(ValuesOf(slots[1..]), rest)
    ensures ParseItems(SlotsText(slots) + rest) == Parsed(ValuesOf(slots), rest)
  {
    var later := SlotsText(slots[1..]) + rest;
    var more := [','] + later;
    assert SlotsText(slots) + rest == s.before + (text + s.after) + more;
    GapThen(s.after, ',', later);
    SlotReads(s, text, more);
    ItemThen(SlotsText(slots) + rest, ValueOf(s.tree), s.after + more, later);
  }

  lemma ItemThen(s: string, v: Value, after: string, later: string)
    requires ParseValue(s) == Parsed(v, after) && SkipSpace(after) == [','] + later
    ensures ParseItems(s) ==
            if ParseItems(later).Bad? then Bad else Parsed([v] + ParseItems(later).value, ParseItems(later).rest)
  {
    assert ([','] + later)[1..] == later;
  }

  lemma {:induction false} SlotsRead(slots: seq<Slot>, rest: string)
    requires slots != [] && forall i :: 0 <= i < |slots| ==> IsSlot(slots[i])
    ensures ParseItems(SlotsText(slots) + rest) == Parsed(ValuesOf(slots), rest)
    decreases slots, 0
  {
    TreeReads(slots[0].tree);
    if |slots| == 1 {
      LastSlotReads(slots[0], slots, TreeText(slots[0].tree), rest);
    } else {
      SlotsRead(slots[1..], rest);
      NextSlotReads(slots[0], slots, TreeText(slots[0].tree), rest);
    }
  }

  lemma MemberIs(m: Member, more: string)
    ensures MemberText(m) + more ==
            m.before + (['\"'] + (SpellingsText(m.key) + ("\"" + (m.after + ([':'] + (SlotText(m.slot) + more))))))
  {
  }

  /** What the parser has at each step of a member. */
  lemma MemberReads(m: Member, s: string, more: string, value: string, after: string)
    requires IsMember(m) && s == MemberText(m) + more && value == SlotText(m.slot) + more
    requires after == m.after + ([':'] + value)
    ensures var q := SkipSpace(s);
            && q != "" && q[0] == '\"' && ParseChars(q[1..]) == Parsed(Spelled(m.key), after)
            && SkipSpace(after) == [':'] + value && ([':'] + value)[1..] == value
  {
    MemberIs(m, more);
    var inside := SpellingsText(m.key) + ("\"" + after);
    SpaceSkipped(m.before, ['\"'] + inside);
    assert (['\"'] + inside)[1..] == inside;
    SpellingsRead(m.key, after);
    SpaceSkipped(m.after, [':'] + value);
  }

  /** The fields the parser has after a member, from what comes then. */
  function FieldsThen(key: string, v: Value, t: string): Parsed<JsonParse.Fields> {
    if t == "" then Bad
    else if t[0] == '}' then Parsed(([key], [v]), t[1..])
    else if t[0] == ',' then
      var others := ParseFields(t[1..]);
      if others.Bad? then Bad else Parsed(WithFirst(key, v, others.value), others.rest)
    else Bad
  }

  /** A member is read as its key and value, up to what comes after it. */
  lemma MemberTaken(m: Member, text: string, more: string, s: string)
    requires IsMember(m) && s == MemberText(m) + more
    requires text == TreeText(m.slot.tree) && Reads(text, ValueOf(m.slot.tree)) && Ends(m.slot.after + more)
    ensures ParseFields(s) == FieldsThen(Spelled(m.key), ValueOf(m.slot.tree), SkipSpace(m.slot.after + more))
  {
    var value := SlotText(m.slot) + more;
    MemberReads(m, s, more, value, m.after + ([':'] + value));
    SlotReads(m.slot, text, more);
  }

  lemma LastMemberReads(m: Member, members: seq<Member>, text: string, rest: string)
    requires members == [m] && IsMember(m) && text == TreeText(m.slot.tree) && Reads(text, ValueOf(m.slot.tree))
    ensures ParseFields(MembersText(members) + rest) == Parsed(([Spelled(m.key)], [ValueOf(m.slot.tree)]), rest)
  {
    var more := ['}'] + rest;
    var s := MemberText(m) + more;
    Regrouped(MemberText(m), "}", rest);
    GapThen(m.slot.after, '}', rest);
    MemberTaken(m, text, more, s);
    assert more[1..] == rest;
  }

  lemma NextMemberReads(m: Member, members: seq<Member>, text: string, later: string, rest: string)
    requires |members| > 1 && m == members[0] && IsMember(m)
    requires text == TreeText(m.slot.tree) && Reads(text, ValueOf(m.slot.tree))
    requires later == MembersText(members[1..]) + rest
    ensures ParseFields(MembersText(members) + rest) ==
            if ParseFields(later).Bad? then Bad
            else Parsed(WithFirst(Spelled(m.key), ValueOf(m.slot.tree), ParseFields(later).value),
                        ParseFields(later).rest)
  {
    var more := [','] + later;
    var s := MemberText(m) + more;
    MoreMembers(MemberText(m), MembersText(members[1..]), rest, later, more);
    GapThen(m.slot.after, ',', later);
    MemberTaken(m, text, more, s);
    assert more[1..] == later;
  }

  lemma MoreMembers(first: string, others: string, rest: string, later: string, more: string)
    requires later == others + rest && more == [','] + later
    ensures first + ("," + others) + rest == first + more
  {
  }

  function FieldsOf(members: seq<Member>): JsonParse.Fields {
    LastFields(KeysIn(members), ValuesIn(members))
  }

  lemma FieldsOfOne(m: Member)
    ensures FieldsOf([m]) == ([Spelled(m.key)], [ValueOf(m.slot.tree)])
  {
    var key, v, one := Spelled(m.key), ValueOf(m.slot.tree), [m];
    assert one[1..] == [] && KeysIn(one) == [key] && ValuesIn(one) == [v];
    assert Firsts([key]) == [key] by { assert [key][1..] == []; }
    LastIndexOnly(key, []);
    assert [key] + [] == [key];
    assert LastValues([key], [key], [v])[0] == v;
  }

  lemma FieldsOfMore(members: seq<Member>)
    requires members != []
    ensures FieldsOf(members) ==
            WithFirst(Spelled(members[0].key), ValueOf(members[0].slot.tree), FieldsOf(members[1..]))
  {
    var later := members[1..];
    FirstMember(Spelled(members[0].key), ValueOf(members[0].slot.tree), KeysIn(later), ValuesIn(later),
                FieldsOf(later));
  }

  lemma {:induction false} MembersRead(members: seq<Member>, rest: string)
    requires members != [] && forall i :: 0 <= i < |members| ==> IsMember(members[i])
    ensures ParseFields(MembersText(members) + rest) == Parsed(FieldsOf(members), rest)
    decreases members, 0
  {
    var m := members[0];
    assert IsMember(m) && IsSlot(m.slot);
    TreeReads(m.slot.tree);
    if |members| == 1 {
      LastMemberReads(m, members, TreeText(m.slot.tree), rest);
      FieldsOfOne(m);
      assert members == [m];
    } else {
      MembersRead(members[1..], rest);
      NextMemberReads(m, members, TreeText(m.slot.tree), MembersText(members[1..]) + rest, rest);
      FieldsOfMore(members);
    }
  }

  lemma SlotsStart(slots: seq<Slot>, rest: string)
    requires slots != [] && AllSpace(slots[0].before) && Reads(TreeText(slots[0].tree), ValueOf(slots[0].tree))
    ensures var inside := SlotsText(slots) + rest; SkipSpace(inside) != "" && SkipSpace(inside)[0] != ']'
  {
    var text, s := TreeText(slots[0].tree), slots[0];
    var more := (if |slots| == 1 then "]" else "," + SlotsText(slots[1..])) + rest;
    var after := text + (s.after + more);
    assert SlotsText(slots) + rest == s.before + after;
    SpaceSkipped(s.before, after);
    assert after[0] == text[0];
  }

  lemma MembersStart(members: seq<Member>, rest: string)
    requires members != [] && AllSpace(members[0].before)
    ensures var inside := MembersText(members) + rest; SkipSpace(inside) != "" && SkipSpace(inside)[0] != '}'
  {
    var m, more := members[0], if |members| == 1 then "}" else "," + MembersText(members[1..]);
    var key := SpellingsText(m.key) + ("\"" + (m.after + ([':'] + (SlotText(m.slot) + (more + rest)))));
    MemberIs(m, more + rest);
    Regrouped(MemberText(m), more, rest);
    SpaceSkipped(m.before, ['\"'] + key);
    assert (['\"'] + key)[0] == '\"';
  }

  lemma {:induction false} ListReads(slots: seq<Slot>)
    requires slots != [] && forall i :: 0 <= i < |slots| ==> IsSlot(slots[i])
    ensures Reads("[" + SlotsText(slots), Container(Unnamed, ValuesOf(slots)))
    decreases slots, 1
  {
    assert IsSlot(slots[0]);
    TreeReads(slots[0].tree);
    forall rest | Ends(rest)
      ensures ParseValue("[" + SlotsText(slots) + rest) == Parsed(Container(Unnamed, ValuesOf(slots)), rest)
    {
      SlotsRead(slots, rest);
      SlotsStart(slots, rest);
      OpenArray(SlotsText(slots) + rest, ValuesOf(slots), rest);
      Regrouped("[", SlotsText(slots), rest);
    }
  }

  lemma {:induction false} ObjectTreeReads(members: seq<Member>)
    requires members != [] && forall i :: 0 <= i < |members| ==> IsMember(members[i])
    ensures Reads("{" + MembersText(members), Container(Named(FieldsOf(members).0), FieldsOf(members).1))
    decreases members, 1
  {
    assert IsMember(members[0]);
    forall rest | Ends(rest)
      ensures ParseValue("{" + MembersText(members) + rest) ==
              Parsed(Container(Named(FieldsOf(members).0), FieldsOf(members).1), rest)
    {
      MembersRead(members, rest);
      MembersStart(members, rest);
      OpenObject(MembersText(members) + rest, FieldsOf(members), rest);
      Regrouped("{", MembersText(members), rest);
    }
  }

  lemma QuoteIsRead(ss: seq<Spelling>)
    requires AreSpellings(ss)
    ensures Reads("\"" + (SpellingsText(ss) + "\""), Primitive(Text(Spelled(ss))))
  {
    forall rest | Ends(rest)
      ensures ParseValue("\"" + (SpellingsText(ss) + "\"") + rest) == Parsed(Primitive(Text(Spelled(ss))), rest)
    {
      QuoteReads(ss, rest);
    }
  }

  lemma EmptyIsRead(names: Names, gap: string)
    requires AllSpace(gap) && names in {Unnamed, Named([])}
    ensures Reads(TreeText(Empty(names, gap)), Container(names, []))
  {
    forall rest | Ends(rest)
      ensures ParseValue(TreeText(Empty(names, gap)) + rest) == Parsed(Container(names, []), rest)
    {
      GapReads(if names.Unnamed? then '[' else '{', gap, if names.Unnamed? then ']' else '}', rest, names);
    }
  }

  /** Whatever follows it, a tree's text is read as its value. */
  lemma {:induction false} TreeReads(t: Tree)
    requires IsTree(t)
    ensures Reads(TreeText(t), ValueOf(t))
    decreases t, 1
  {
    match t
    case Word(atom) => AtomReads(atom);
    case Figure(numeral) =>
      NumeralReads(numeral);
      AtomReads(Number(NumeralText(numeral)));
    case Quote(spellings) => QuoteIsRead(spellings);
    case Empty(names, gap) => EmptyIsRead(names, gap);
    case List(slots) => ListReads(slots);
    case Members(members) => ObjectTreeReads(members);
  }

  // ------------------------------------------------------------- what is read is spelled

  lemma {:induction false} SpaceTaken(s: string) returns (gap: string)
    ensures AllSpace(gap) && s == gap + SkipSpace(s)
  {
    if s != "" && IsSpace(s[0]) {
      var more := SpaceTaken(s[1..]);
      gap := [s[0]] + more;
      Head(s);
      Regrouped([s[0]], more, SkipSpace(s[1..]));
    } else {
      gap := "";
    }
  }

  lemma UnitIsSpelled(s: string, c: char) returns (sp: Spelling)
    requires |s| >= 6 && s[..2] == "\\u" && HexUnit(s[2..6]) == c as int
    ensures IsSpelling(sp) && sp.c == c && s == SpellingText(sp) + s[6..]
  {
    UnitExactly(s[2..6], c as int);
    sp := Unit(c, s[2..6]);
    assert s == s[..2] + s[2..6] + s[6..];
  }

  lemma PairParts<T>(s: seq<T>)
    requires |s| >= 12
    ensures s == s[..2] + s[2..6] + s[6..8] + s[8..12] + s[12..]
  {
    assert s[..6] == s[..2] + s[2..6] && s[..8] == s[..6] + s[6..8] && s[..12] == s[..8] + s[8..12];
  }

  lemma PairIsSpelled(s: string, h: nat, l: nat, c: char) returns (sp: Spelling)
    requires |s| >= 12 && s[..2] == "\\u" && s[6..8] == "\\u" && HexUnit(s[2..6]) == h && HexUnit(s[8..12]) == l
    requires 0xD800 <= h < 0xDC00 && 0xDC00 <= l < 0xE000
    requires (c as int) == 0x10000 + 0x400 * (h - 0xD800) + (l - 0xDC00)
    ensures IsSpelling(sp) && sp.c == c && s == SpellingText(sp) + s[12..]
  {
    UnitExactly(s[2..6], h);
    UnitExactly(s[8..12], l);
    sp := Pair(c, s[2..6], s[8..12]);
    PairParts(s);
  }

  lemma LetterIsSpelled(s: string, c: char) returns (sp: Spelling)
    requires |s| >= 2 && s[0] == '\\' && Simple(s[1]) == Some(c)
    ensures IsSpelling(sp) && sp.c == c && s == SpellingText(sp) + s[2..]
  {
    sp := Letter(c, s[1]);
  }

  lemma EscapeIsSpelled(s: string) returns (sp: Spelling)
    requires s != "" && s[0] == '\\' && ParseEscape(s).Parsed?
    ensures IsSpelling(sp) && sp.c == ParseEscape(s).value && s == SpellingText(sp) + ParseEscape(s).rest
  {
    var c := ParseEscape(s).value;
    if s[1] != 'u' {
      sp := LetterIsSpelled(s, c);
    } else {
      var unit := HexUnit(s[2..6]);
      if unit < 0xD800 || 0xE000 <= unit {
        sp := UnitIsSpelled(s, c);
      } else {
        sp := PairIsSpelled(s, unit, HexUnit(s[8..12]), c);
      }
    }
  }

  lemma SpellingsFirst(sp: Spelling, more: seq<Spelling>)
    ensures SpellingsText([sp] + more) == SpellingText(sp) + SpellingsText(more)
    ensures Spelled([sp] + more) == [sp.c] + Spelled(more)
  {
    assert ([sp] + more)[1..] == more;
  }

  lemma {:induction false} CharsAreSpelled(s: string) returns (ss: seq<Spelling>)
    requires ParseChars(s).Parsed?
    ensures AreSpellings(ss) && Spelled(ss) == ParseChars(s).value
    ensures s == SpellingsText(ss) + ("\"" + ParseChars(s).rest)
    decreases |s|
  {
    if s[0] == '\"' {
      ss := [];
      assert s == "\"" + s[1..];
    } else {
      var sp, after;
      if s[0] == '\\' {
        sp := EscapeIsSpelled(s);
        after := ParseEscape(s).rest;
      } else {
        sp, after := Itself(s[0]), s[1..];
        assert s == [s[0]] + s[1..];
      }
      var more := CharsAreSpelled(after);
      SpellingsFirst(sp, more);
      ss := [sp] + more;
      Regrouped(SpellingText(sp), SpellingsText(more), "\"" + ParseChars(s).rest);
    }
  }

  lemma CutAt<T>(s: seq<T>, n: nat)
    requires n <= |s|
    ensures s == s[..n] + s[n..]
  {
  }

  /** The text after the space is the tree's, and then what is left. */
  ghost predicate IsSpelledBy(s: string, t: Tree, v: Value, rest: string) {
    IsTree(t) && ValueOf(t) == v && s == TreeText(t) + rest
  }

  lemma WordIsSpelled(s: string, word: string, atom: Atom) returns (t: Tree)
    requires StartsWith(s, word) && (atom.Null? || atom.Bool?)
    requires word == TreeText(Word(atom))
    ensures IsSpelledBy(s, t, Primitive(atom), s[|word|..])
  {
    t := Word(atom);
    CutAt(s, |word|);
  }

  lemma NumberIsSpelled(s: string, n: nat) returns (t: Tree)
    requires n <= |s| && IsNumberText(s[..n])
    ensures IsSpelledBy(s, t, Primitive(Number(s[..n])), s[n..])
  {
    var numeral := NumberHasParts(s[..n]);
    t := Figure(numeral);
    CutAt(s, n);
  }

  lemma QuoteIsSpelled(s: string) returns (t: Tree)
    requires s != "" && s[0] == '\"' && ParseChars(s[1..]).Parsed?
    ensures IsSpelledBy(s, t, Primitive(Text(ParseChars(s[1..]).value)), ParseChars(s[1..]).rest)
  {
    var ss := CharsAreSpelled(s[1..]);
    t := Quote(ss);
    var rest := ParseChars(s[1..]).rest;
    CutAt(s, 1);
    Regrouped(SpellingsText(ss), "\"", rest);
    Regrouped("\"", SpellingsText(ss) + "\"", rest);
  }

  lemma EmptyIsSpelled(s: string, names: Names) returns (t: Tree)
    requires s != "" && names in {Unnamed, Named([])} && s[0] == if names.Unnamed? then '[' else '{'
    requires var inner := SkipSpace(s[1..]); inner != "" && inner[0] == if names.Unnamed? then ']' else '}'
    ensures IsSpelledBy(s, t, Container(names, []), SkipSpace(s[1..])[1..])
  {
    var gap := SpaceTaken(s[1..]);
    t := Empty(names, gap);
    var open, close := [s[0]], [SkipSpace(s[1..])[0]];
    CutAt(s, 1);
    CutAt(SkipSpace(s[1..]), 1);
    Regrouped(gap, close, SkipSpace(s[1..])[1..]);
    Regrouped(open, gap + close, SkipSpace(s[1..])[1..]);
  }

  lemma ListIsSpelled(s: string, slots: seq<Slot>, rest: string) returns (t: Tree)
    requires s != "" && s[0] == '[' && s[1..] == SlotsText(slots) + rest
    requires slots != [] && forall i :: 0 <= i < |slots| ==> IsSlot(slots[i])
    ensures IsSpelledBy(s, t, Container(Unnamed, ValuesOf(slots)), rest)
  {
    t := List(slots);
    Head(s);
    Regrouped("[", SlotsText(slots), rest);
  }

  lemma ObjectIsSpelled(s: string, members: seq<Member>, rest: string) returns (t: Tree)
    requires s != "" && s[0] == '{' && s[1..] == MembersText(members) + rest
    requires members != [] && forall i :: 0 <= i < |members| ==> IsMember(members[i])
    ensures IsSpelledBy(s, t, Container(Named(FieldsOf(members).0), FieldsOf(members).1), rest)
  {
    t := Members(members);
    Head(s);
    Regrouped("{", MembersText(members), rest);
  }

  lemma {:induction false} ValueIsSpelled(s: string) returns (gap: string, t: Tree)
    requires ParseValue(s).Parsed?
    ensures AllSpace(gap) && s == gap + SkipSpace(s)
    ensures IsSpelledBy(SkipSpace(s), t, ParseValue(s).value, ParseValue(s).rest)
    decreases |s|, 0
  {
    gap := SpaceTaken(s);
    var u := SkipSpace(s);
    var inner := SkipSpace(u[1..]);
    if u[0] == '\"' {
      t := QuoteIsSpelled(u);
    } else if u[0] == '[' {
      if inner != "" && inner[0] == ']' {
        t := EmptyIsSpelled(u, Unnamed);
      } else {
        var slots := ItemsAreSpelled(u[1..]);
        t := ListIsSpelled(u, slots, ParseItems(u[1..]).rest);
      }
    } else if u[0] == '{' {
      if inner != "" && inner[0] == '}' {
        t := EmptyIsSpelled(u, Named([]));
      } else {
        var members := FieldsAreSpelled(u[1..]);
        t := ObjectIsSpelled(u, members, ParseFields(u[1..]).rest);
      }
    } else if u[0] == 'n' {
      t := WordIsSpelled(u, "null", Null);
    } else if u[0] == 't' {
      t := WordIsSpelled(u, "true", Bool(true));
    } else if u[0] == 'f' {
      t := WordIsSpelled(u, "false", Bool(false));
    } else {
      t := NumberIsSpelled(u, NumberLength(u));
    }
  }

  /** The items the parser has after one, from what comes then. */
  function ItemsThen(v: Value, t: string): Parsed<seq<Value>> {
    if t == "" then Bad
    else if t[0] == ']' then Parsed([v], t[1..])
    else if t[0] == ',' then
      var others := ParseItems(t[1..]);
      if others.Bad? then Bad else Parsed([v] + others.value, others.rest)
    else Bad
  }

  lemma {:induction false} SlotIsSpelled(s: string) returns (slot: Slot, next: string)
    requires ParseItems(s).Parsed?
    ensures IsSlot(slot) && s == SlotText(slot) + next && ParseItems(s) == ItemsThen(ValueOf(slot.tree), next)
    decreases |s|, 1
  {
    var before, t := ValueIsSpelled(s);
    var left := ParseValue(s).rest;
    var after := SpaceTaken(left);
    slot, next := Slot(before, t, after), SkipSpace(left);
    SlotThen(slot, s, left, next);
  }

  lemma {:induction false} ItemsAreSpelled(s: string) returns (slots: seq<Slot>)
    requires ParseItems(s).Parsed?
    ensures slots != [] && (forall i :: 0 <= i < |slots| ==> IsSlot(slots[i]))
    ensures ValuesOf(slots) == ParseItems(s).value && s == SlotsText(slots) + ParseItems(s).rest
    decreases |s|, 2
  {
    var slot, next := SlotIsSpelled(s);
    Head(next);
    if next[0] == ']' {
      slots := [slot];
      OneSlot(slot);
      Regrouped(SlotText(slot), "]", next[1..]);
    } else {
      var more := ItemsAreSpelled(next[1..]);
      slots := [slot] + more;
      MoreSlots(slot, more);
      MoreMembers(SlotText(slot), SlotsText(more), ParseItems(s).rest, next[1..], next);
    }
  }

  lemma SlotThen(slot: Slot, s: string, left: string, next: string)
    requires s == slot.before + (TreeText(slot.tree) + left) && left == slot.after + next
    ensures s == SlotText(slot) + next
  {
    Regrouped(TreeText(slot.tree), slot.after, next);
    Regrouped(slot.before, TreeText(slot.tree) + slot.after, next);
  }

  lemma OneSlot(slot: Slot)
    ensures SlotsText([slot]) == SlotText(slot) + "]" && ValuesOf([slot]) == [ValueOf(slot.tree)]
  {
    var one := [slot];
    assert one[1..] == [] && [ValueOf(slot.tree)] + [] == [ValueOf(slot.tree)];
  }

  lemma MoreSlots(slot: Slot, more: seq<Slot>)
    requires more != []
    ensures SlotsText([slot] + more) == SlotText(slot) + ("," + SlotsText(more))
    ensures ValuesOf([slot] + more) == [ValueOf(slot.tree)] + ValuesOf(more)
  {
    assert ([slot] + more)[1..] == more;
  }

  lemma {:induction false} MemberIsSpelled(s: string) returns (m: Member, next: string)
    requires ParseFields(s).Parsed?
    ensures IsMember(m) && s == MemberText(m) + next
    ensures ParseFields(s) == FieldsThen(Spelled(m.key), ValueOf(m.slot.tree), next)
    decreases |s|, 1
  {
    var before := SpaceTaken(s);
    var q := SkipSpace(s);
    var key := CharsAreSpelled(q[1..]);
    var named := ParseChars(q[1..]).rest;
    var gap := SpaceTaken(named);
    var colon := SkipSpace(named);
    var inner, t := ValueIsSpelled(colon[1..]);
    var left := ParseValue(colon[1..]).rest;
    var after := SpaceTaken(left);
    m, next := Member(before, key, gap, Slot(inner, t, after)), SkipSpace(left);
    SlotThen(m.slot, colon[1..], left, next);
    MemberThen(m, s, q, named, colon, next);
  }

  lemma {:induction false} FieldsAreSpelled(s: string) returns (members: seq<Member>)
    requires ParseFields(s).Parsed?
    ensures members != [] && (forall i :: 0 <= i < |members| ==> IsMember(members[i]))
    ensures FieldsOf(members) == ParseFields(s).value && s == MembersText(members) + ParseFields(s).rest
    decreases |s|, 2
  {
    var m, next := MemberIsSpelled(s);
    Head(next);
    if next[0] == '}' {
      members := [m];
      FieldsOfOne(m);
      OneMember(m);
      Regrouped(MemberText(m), "}", next[1..]);
    } else {
      var more := FieldsAreSpelled(next[1..]);
      members := [m] + more;
      MembersFirst(m, more);
      FieldsOfMore(members);
      MoreMembers(MemberText(m), MembersText(more), ParseFields(s).rest, next[1..], next);
    }
  }

  lemma Head<T>(s: seq<T>)
    requires s != []
    ensures s == [s[0]] + s[1..]
  {
  }

  lemma OneMember(m: Member)
    ensures MembersText([m]) == MemberText(m) + "}"
  {
  }

  lemma MembersFirst(m: Member, more: seq<Member>)
    requires more != []
    ensures MembersText([m] + more) == MemberText(m) + ("," + MembersText(more))
    ensures ([m] + more)[1..] == more
  {
  }

  lemma MemberThen(m: Member, s: string, q: string, named: string, colon: string, next: string)
    requires s == m.before + q && q != "" && q[0] == '\"' && q[1..] == SpellingsText(m.key) + ("\"" + named)
    requires named == m.after + colon && colon != "" && colon[0] == ':' && colon[1..] == SlotText(m.slot) + next
    ensures s == MemberText(m) + next
  {
    MemberIs(m, next);
    Head(q);
    Head(colon);
  }

  /** The text spells the value, with space before and after. */
  ghost predicate IsSpelledIn(text: string, v: Value, before: string, t: Tree, after: string) {
    && IsGap(before) && IsGap(after) && IsTree(t) && ValueOf(t) == v
    && text == before + (TreeText(t) + after)
  }

  lemma ParsedIsSpelled(text: string, v: Value) returns (before: string, t: Tree, after: string)
    requires Parse(text) == Some(v)
    ensures IsSpelledIn(text, v, before, t, after)
  {
    before, t := ValueIsSpelled(text);
    after := SpaceTaken(ParseValue(text).rest);
    assert after + "" == after;
  }

  lemma SpelledIsParsed(text: string, v: Value, before: string, t: Tree, after: string)
    requires IsSpelledIn(text, v, before, t, after)
    ensures Parse(text) == Some(v)
  {
    TreeReads(t);
    SpaceEnds(after);
    ReadInGap(before, TreeText(t), v, after);
  }

  /** A text is parsed as a value exactly when it spells it, with any space before and after. */
  lemma ParsesExactly(text: string, v: Value)
    ensures Parse(text) == Some(v) <==> exists before, t, after :: IsSpelledIn(text, v, before, t, after)
  {
    if Parse(text) == Some(v) {
      var before, t, after := ParsedIsSpelled(text, v);
    }
    if before, t, after :| IsSpelledIn(text, v, before, t, after) {
      SpelledIsParsed(text, v, before, t, after);
    }
  }

  lemma SpaceEnds(after: string)
    requires AllSpace(after)
    ensures Ends(after) && SkipSpace(after) == ""
  {
    SpaceSkipped(after, "");
    assert after + "" == after;
  }
}
