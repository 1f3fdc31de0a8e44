/**
 * The JSON text of flat objects: what encoding/json prints (section 7 of RFC 8259, with HTML escaping and the
 * replacement of invalid UTF-8) and what it reads back.
 */
module Json {
  import opened Bytes
  import opened Utf8

  datatype Value =
    | Text(text: str)
    | Number(n: int)
    | Flag(b: bool)
    | Null
    | Texts(items: seq<str>)

  datatype Member = Member(key: str, value: Value)

  datatype Parsed<+T> = Parsed(value: T, rest: str)

  // ---- Strings ----

  function HexDigit(n: int): byte
    requires 0 <= n < 16
  {
    if n < 10 then Byte('0' as int + n) else Byte('a' as int + n - 10)
  }

  predicate NeedsUnicodeEscape(c: byte) {
    c as int < 0x20 || c == '<' || c == '>' || c == '&'
  }

  function EscapeAscii(c: byte): (e: str)
    requires c as int < 0x80
    ensures 1 <= |e| <= 6
  {
    if c == '"' || c == '\\' then ['\\', c]
    else if c == Byte(8) then ['\\', 'b']
    else if c == Byte(12) then ['\\', 'f']
    else if c == '\n' then ['\\', 'n']
    else if c == '\r' then ['\\', 'r']
    else if c == '\t' then ['\\', 't']
    else if NeedsUnicodeEscape(c) then ['\\', 'u', '0', '0', HexDigit(c as int / 16), HexDigit(c as int % 16)]
    else [c]
  }

  function UnicodeEscape(r: int): (e: str)
    requires 0 <= r < 0x10000
    ensures |e| == 6
  {
    ['\\', 'u', HexDigit(r / 4096), HexDigit(r / 256 % 16), HexDigit(r / 16 % 16), HexDigit(r % 16)]
  }

  /** What the rune, or the invalid byte, at the front is written as. */
  function EscapeFront(s: str): (e: str)
    requires s != []
    ensures |e| <= 6 * FrontWidth(s)
  {
    var w := RuneWidth(s);
    if w == 0 then UnicodeEscape(RUNE_ERROR)
    else if w == 1 then EscapeAscii(s[0])
    else if RuneValue(s) == 0x2028 || RuneValue(s) == 0x2029 then UnicodeEscape(RuneValue(s))
    else s[..w]
  }

  /** The escaped text between the quotes. */
  function Escape(s: str): str {
    if s == [] then [] else EscapeFront(s) + Escape(s[FrontWidth(s)..])
  }

  /** The four hexadecimal digits at the front. */
  function Hex4(t: str): Option<int>
    ensures Hex4(t).Some? ==> 0 <= Hex4(t).value < 0x10000 && |t| >= 4
  {
    if |t| < 4 then None
    else
      match (HexValue(t[0]), HexValue(t[1]), HexValue(t[2]), HexValue(t[3]))
      case (Some(a), Some(b), Some(c), Some(d)) => Some(a as int * 4096 + b as int * 256 + c as int * 16 + d as int)
      case _ => None
  }

  /** The escape after a backslash: its bytes and the text that follows it. A lone surrogate becomes U+FFFD. */
  function ReadEscape(t: str): Option<Parsed<str>>
    ensures ReadEscape(t).Some? ==> |ReadEscape(t).value.rest| < |t|
  {
    if t == [] then None
    else if t[0] == '"' || t[0] == '\\' || t[0] == '/' then Some(Parsed([t[0]], t[1..]))
    else if t[0] == 'b' then Some(Parsed([Byte(8)], t[1..]))
    else if t[0] == 'f' then Some(Parsed([Byte(12)], t[1..]))
    else if t[0] == 'n' then Some(Parsed(['\n'], t[1..]))
    else if t[0] == 'r' then Some(Parsed(['\r'], t[1..]))
    else if t[0] == 't' then Some(Parsed(['\t'], t[1..]))
    else if t[0] == 'u' then
      match Hex4(t[1..])
      case None => None
      case Some(r) =>
        if !(0xD800 <= r < 0xE000) then Some(Parsed(EncodeRune(r), t[5..]))
        else if r < 0xDC00 && |t| >= 11 && t[5] == '\\' && t[6] == 'u' && Hex4(t[7..]).Some?
                && 0xDC00 <= Hex4(t[7..]).value < 0xE000
        then Some(Parsed(EncodeRune(0x10000 + (r - 0xD800) * 0x400 + (Hex4(t[7..]).value - 0xDC00)), t[11..]))
        else Some(Parsed(REPLACEMENT, t[5..]))
    else None
  }

  /** The string whose opening quote has been read. */
  function ReadString(t: str): Option<Parsed<str>>
    ensures ReadString(t).Some? ==> |ReadString(t).value.rest| < |t|
    decreases |t|
  {
    if t == [] then None
    else if t[0] == '"' then Some(Parsed([], t[1..]))
    else if t[0] == '\\' then
      match ReadEscape(t[1..])
      case None => None
      case Some(e) => Prepend(e.value, ReadString(e.rest))
    else if t[0] as int < 0x20 then None
    else
      var w := RuneWidth(t);
      if w == 0 then Prepend(REPLACEMENT, ReadString(t[1..])) else Prepend(t[..w], ReadString(t[w..]))
  }

  function Prepend(front: str, r: Option<Parsed<str>>): Option<Parsed<str>> {
    match r
    case None => None
    case Some(p) => Some(Parsed(front + p.value, p.rest))
  }

  lemma HexRoundTrip(n: int)
    requires 0 <= n < 16
    ensures HexValue(HexDigit(n)) == Some(n)
  {
  }

  lemma Hex4Reads(a: int, b: int, c: int, d: int, t: str)
    requires 0 <= a < 16 && 0 <= b < 16 && 0 <= c < 16 && 0 <= d < 16
    ensures Hex4([HexDigit(a), HexDigit(b), HexDigit(c), HexDigit(d)] + t) == Some(a * 4096 + b * 256 + c * 16 + d)
  {
    hide HexDigit, HexValue;
    HexRoundTrip(a);
    HexRoundTrip(b);
    HexRoundTrip(c);
    HexRoundTrip(d);
  }

  lemma HexSplit(r: int)
    requires 0 <= r < 0x10000
    ensures 0 <= r / 4096 < 16 && 0 <= r / 256 % 16 < 16 && 0 <= r / 16 % 16 < 16 && 0 <= r % 16 < 16
    ensures r / 4096 * 4096 + r / 256 % 16 * 256 + r / 16 % 16 * 16 + r % 16 == r
  {
  }

  lemma UnicodeEscapeValue(r: int, t: str)
    requires 0 <= r < 0x10000 && !(0xD800 <= r < 0xE000)
    ensures ReadEscape(UnicodeEscape(r)[1..] + t) == Some(Parsed(EncodeRune(r), t))
  {
    hide HexDigit, HexValue, Hex4, EncodeRune;
    HexSplit(r);
    var a, b, c, d := r / 4096, r / 256 % 16, r / 16 % 16, r % 16;
    var digits := [HexDigit(a), HexDigit(b), HexDigit(c), HexDigit(d)];
    assert Hex4(digits + t) == Some(r) by { Hex4Reads(a, b, c, d, t); }
    assert UnicodeEscape(r)[1..] == ['u'] + digits;
    var e := ['u'] + (digits + t);
    assert UnicodeEscape(r)[1..] + t == e;
    assert e[1..] == digits + t && e[5..] == t;
  }

  /** A backslash hands over to the escape after it. */
  lemma EscapeStep(e: str, out: str, t: str)
    requires e != [] && e[0] == '\\' && ReadEscape(e[1..] + t) == Some(Parsed(out, t))
    ensures ReadString(e + t) == Prepend(out, ReadString(t))
  {
    hide ReadEscape;
    assert (e + t)[1..] == e[1..] + t;
  }

  lemma UnicodeEscapeReads(r: int, t: str)
    requires 0 <= r < 0x10000 && !(0xD800 <= r < 0xE000)
    ensures ReadString(UnicodeEscape(r) + t) == Prepend(EncodeRune(r), ReadString(t))
  {
    hide ReadString, ReadEscape, EncodeRune;
    UnicodeEscapeValue(r, t);
    EscapeStep(UnicodeEscape(r), EncodeRune(r), t);
  }

  lemma ShortEscapeValue(c: byte, t: str)
    requires c as int < 0x80 && |EscapeAscii(c)| == 2
    ensures EscapeAscii(c)[0] == '\\' && ReadEscape(EscapeAscii(c)[1..] + t) == Some(Parsed([c], t))
  {
    var e := EscapeAscii(c)[1..] + t;
    assert e[1..] == t;
  }

  lemma PlainReads(c: byte, t: str)
    requires 0x20 <= c as int < 0x80 && c != '"' && c != '\\'
    ensures ReadString([c] + t) == Prepend([c], ReadString(t))
  {
    hide ReadEscape;
    assert ([c] + t)[..1] == [c] && ([c] + t)[1..] == t;
  }

  lemma AsciiReads(c: byte, t: str)
    requires c as int < 0x80
    ensures ReadString(EscapeAscii(c) + t) == Prepend([c], ReadString(t))
  {
    hide ReadString, ReadEscape;
    if |EscapeAscii(c)| == 1 {
      PlainReads(c, t);
    } else if |EscapeAscii(c)| == 2 {
      ShortEscapeValue(c, t);
      EscapeStep(EscapeAscii(c), [c], t);
    } else {
      assert EscapeAscii(c) == UnicodeEscape(c as int);
      UnicodeEscapeReads(c as int, t);
    }
  }

  lemma RuneReads(s: str, t: str)
    requires RuneWidth(s) > 1
    ensures ReadString(s[..RuneWidth(s)] + t) == Prepend(s[..RuneWidth(s)], ReadString(t))
  {
    hide ReadEscape;
    RuneAtFront(s, t);
  }

  /** The two separators that are escaped have only one UTF-8 spelling. */
  lemma SeparatorBytes(s: str)
    requires RuneWidth(s) > 1 && (RuneValue(s) == 0x2028 || RuneValue(s) == 0x2029)
    ensures EncodeRune(RuneValue(s)) == s[..RuneWidth(s)]
  {
    var w := RuneWidth(s);
    if w == 3 {
      var a, b, c := s[0] as int - 0xE0, s[1] as int - 0x80, s[2] as int - 0x80;
      assert a == 2 && b == 0 && (c == 0x28 || c == 0x29);
      assert s[..3] == [s[0], s[1], s[2]];
    }
  }

  lemma FrontReads(s: str, t: str)
    requires s != []
    ensures ReadString(EscapeFront(s) + t) == Prepend(CoerceFront(s), ReadString(t))
  {
    hide ReadString, RuneWidth, RuneValue, EscapeAscii, EncodeRune;
    var w := RuneWidth(s);
    if w == 0 {
      UnicodeEscapeReads(RUNE_ERROR, t);
      ReplacementRune();
    } else if w == 1 {
      AsciiReads(s[0], t);
      assert s[..1] == [s[0]];
    } else if RuneValue(s) == 0x2028 || RuneValue(s) == 0x2029 {
      UnicodeEscapeReads(RuneValue(s), t);
      SeparatorBytes(s);
    } else {
      RuneReads(s, t);
    }
  }

  /** Reading an escaped string gives back its coercion to valid UTF-8, and stops at the closing quote. */
  lemma {:induction false} EscapeReads(s: str, rest: str)
    ensures ReadString(Escape(s) + (['"'] + rest)) == Some(Parsed(Coerce(s), rest))
    decreases |s|
  {
    hide ReadString, EscapeFront, CoerceFront, FrontWidth;
    var tail := ['"'] + rest;
    if s == [] {
      QuoteEnds(rest);
      assert Escape(s) + tail == tail;
    } else {
      var more := Escape(s[FrontWidth(s)..]) + tail;
      EscapeReads(s[FrontWidth(s)..], rest);
      FrontReads(s, more);
      assert Escape(s) + tail == EscapeFront(s) + more;
    }
  }

  lemma ReplacementRune()
    ensures EncodeRune(RUNE_ERROR) == REPLACEMENT
  {
  }

  lemma QuoteEnds(rest: str)
    ensures ReadString(['"'] + rest) == Some(Parsed([], rest))
  {
    hide ReadEscape;
    assert (['"'] + rest)[1..] == rest;
  }

  lemma {:induction false} EscapeLength(s: str)
    ensures |Escape(s)| <= 6 * |s|
    decreases |s|
  {
    hide EscapeFront, FrontWidth;
    if s != [] {
      EscapeLength(s[FrontWidth(s)..]);
    }
  }

  /** A byte that may stand in escaped text. */
  predicate Safe(c: byte) {
    c as int >= 0x20 && c !in {'<', '>', '&'}
  }

  lemma AsciiIsSafe(c: byte)
    requires c as int < 0x80
    ensures forall d | d in EscapeAscii(c) :: Safe(d)
  {
  }

  lemma UnicodeIsSafe(r: int)
    requires 0 <= r < 0x10000
    ensures forall d | d in UnicodeEscape(r) :: Safe(d) && d as int < 0x80
  {
    HexSplit(r);
    assert forall n | 0 <= n < 16 :: Safe(HexDigit(n)) && HexDigit(n) as int < 0x80;
    hide HexDigit;
  }

  lemma RuneIsSafe(s: str)
    requires RuneWidth(s) > 1
    ensures forall d | d in s[..RuneWidth(s)] :: Safe(d)
  {
    assert forall k | 0 <= k < RuneWidth(s) :: s[k] as int >= 0x80;
  }

  lemma FrontIsSafe(s: str)
    requires s != []
    ensures forall d | d in EscapeFront(s) :: Safe(d)
    ensures RuneWidth(s) > 1 && (RuneValue(s) == 0x2028 || RuneValue(s) == 0x2029) ==> Ascii(EscapeFront(s))
  {
    hide RuneWidth, RuneValue, EscapeAscii, UnicodeEscape, Safe;
    if RuneWidth(s) == 0 {
      UnicodeIsSafe(RUNE_ERROR);
    } else if RuneWidth(s) == 1 {
      AsciiIsSafe(s[0]);
    } else {
      RuneIsSafe(s);
      if RuneValue(s) == 0x2028 || RuneValue(s) == 0x2029 {
        UnicodeIsSafe(RuneValue(s));
        var e := EscapeFront(s);
        forall i | 0 <= i < |e| ensures e[i] as int < 0x80 {
          assert e[i] in e;
        }
      }
    }
  }

  /** Escaped text has no control characters and nothing that HTML could mistake for markup. */
  lemma {:induction false} EscapedIsSafe(s: str)
    ensures forall c | c in Escape(s) :: c as int >= 0x20 && c !in {'<', '>', '&'}
    decreases |s|
  {
    hide EscapeFront, FrontWidth, RuneWidth, RuneValue;
    if s != [] {
      FrontIsSafe(s);
      EscapedIsSafe(s[FrontWidth(s)..]);
    }
  }

  // ---- Numbers ----

  predicate IsDigit(c: byte) {
    '0' <= c <= '9'
  }

  function PrintNat(n: nat): (t: str)
    ensures t != [] && forall c | c in t :: IsDigit(c)
    ensures n > 0 ==> t[0] != '0'
    ensures n == 0 ==> t == ['0']
  {
    if n < 10 then [Byte('0' as int + n)] else PrintNat(n / 10) + [Byte('0' as int + n % 10)]
  }

  function PrintInt(n: int): str {
    if n < 0 then ['-'] + PrintNat(-n) else PrintNat(n)
  }

  function DigitsValue(t: str): nat
    requires forall c | c in t :: IsDigit(c)
  {
    if t == [] then 0
    else
      assert IsDigit(t[|t| - 1]);
      DigitsValue(t[..|t| - 1]) * 10 + t[|t| - 1] as int - '0' as int
  }

  lemma {:induction false} PrintNatValue(n: nat)
    ensures DigitsValue(PrintNat(n)) == n
  {
    if n >= 10 {
      PrintNatValue(n / 10);
      assert PrintNat(n)[..|PrintNat(n)| - 1] == PrintNat(n / 10);
    }
  }

  lemma PrintedDigits(n: int)
    ensures forall i | 0 <= i < |PrintInt(n)| :: PrintInt(n)[i] as int < 0x80
  {
    var m := if n < 0 then -n else n;
    forall i | 0 <= i < |PrintNat(m)| ensures PrintNat(m)[i] as int < 0x80 {
      assert PrintNat(m)[i] in PrintNat(m);
    }
  }

  lemma PrintNatStep(n: nat, digit: int)
    requires n > 0 && 0 <= digit < 10
    ensures PrintNat(n * 10 + digit) == PrintNat(n) + [Byte('0' as int + digit)]
  {
    assert (n * 10 + digit) / 10 == n && (n * 10 + digit) % 10 == digit;
  }

  lemma DigitsStep(front: str, last: byte)
    requires (forall c | c in front :: IsDigit(c)) && IsDigit(last)
    ensures forall c | c in front + [last] :: IsDigit(c)
    ensures DigitsValue(front + [last]) == DigitsValue(front) * 10 + last as int - '0' as int
  {
    assert (front + [last])[..|front|] == front;
  }

  lemma OneDigit(c: byte)
    requires IsDigit(c)
    ensures DigitsValue([c]) == c as int - '0' as int && PrintNat(c as int - '0' as int) == [c]
  {
    assert [c][..0] == [];
  }

  /** Digits without a leading zero are the only spelling of their value. */
  lemma {:induction false} DigitsPrinted(d: str)
    requires d != [] && (forall c | c in d :: IsDigit(c)) && (|d| > 1 ==> d[0] != '0')
    ensures PrintNat(DigitsValue(d)) == d
    ensures |d| > 1 ==> DigitsValue(d) >= 10
    ensures |d| == 1 ==> DigitsValue(d) == d[0] as int - '0' as int
  {
    hide PrintNat, DigitsValue;
    var front, last := d[..|d| - 1], d[|d| - 1];
    assert last in d && IsDigit(last);
    if |d| == 1 {
      assert d == [last];
      OneDigit(last);
    } else {
      assert d == front + [last];
      assert forall c | c in front :: c in d;
      DigitsPrinted(front);
      assert front[0] == d[0] && d[0] in d;
      DigitsStep(front, last);
      PrintNatStep(DigitsValue(front), last as int - '0' as int);
    }
  }

  function DigitRun(t: str): (n: nat)
    ensures n <= |t| && forall c | c in t[..n] :: IsDigit(c)
    ensures n < |t| ==> !IsDigit(t[n])
  {
    if t == [] || !IsDigit(t[0]) then 0
    else
      var n := 1 + DigitRun(t[1..]);
      assert t[..n] == [t[0]] + t[1..][..n - 1];
      n
  }

  lemma {:induction false} DigitRunOfPrefix(d: str, rest: str)
    requires forall c | c in d :: IsDigit(c)
    requires rest == [] || !IsDigit(rest[0])
    ensures DigitRun(d + rest) == |d|
  {
    if d == [] {
      assert d + rest == rest;
    } else {
      DigitRunOfPrefix(d[1..], rest);
      assert (d + rest)[1..] == d[1..] + rest;
    }
  }

  /** An integer literal; a fraction or an exponent after it makes it unusable for an integer field. */
  function ReadNat(t: str): Option<Parsed<nat>>
    ensures ReadNat(t).Some? ==> |ReadNat(t).value.rest| < |t|
  {
    var n := DigitRun(t);
    if n == 0 || (n > 1 && t[0] == '0') || (n < |t| && (t[n] == '.' || t[n] == 'e' || t[n] == 'E')) then None
    else Some(Parsed(DigitsValue(t[..n]), t[n..]))
  }

  function ReadInt(t: str): Option<Parsed<int>>
    ensures ReadInt(t).Some? ==> |ReadInt(t).value.rest| < |t|
  {
    if t != [] && t[0] == '-' then
      match ReadNat(t[1..])
      case None => None
      case Some(p) => Some(Parsed(0 - p.value as int, p.rest))
    else
      match ReadNat(t)
      case None => None
      case Some(p) => Some(Parsed(p.value, p.rest))
  }

  predicate EndsNumber(rest: str) {
    rest == [] || (!IsDigit(rest[0]) && rest[0] != '.' && rest[0] != 'e' && rest[0] != 'E')
  }

  lemma NatReads(n: nat, rest: str)
    requires EndsNumber(rest)
    ensures ReadNat(PrintNat(n) + rest) == Some(Parsed(n, rest))
  {
    hide PrintNat, DigitsValue, DigitRun;
    var d := PrintNat(n);
    DigitRunOfPrefix(d, rest);
    PrintNatValue(n);
    var t := d + rest;
    assert t[..|d|] == d && t[|d|..] == rest;
  }

  lemma IntReads(n: int, rest: str)
    requires EndsNumber(rest)
    ensures ReadInt(PrintInt(n) + rest) == Some(Parsed(n, rest))
  {
    hide PrintNat, ReadNat;
    if n < 0 {
      NatReads(-n, rest);
      assert (PrintInt(n) + rest)[1..] == PrintNat(-n) + rest;
    } else {
      NatReads(n, rest);
      assert IsDigit(PrintNat(n)[0]) by { assert PrintNat(n)[0] in PrintNat(n); }
    }
  }

  /** A positive number has one spelling, whether it stands in the text or in a string. */
  lemma PositiveSpelling(s: str, n: int)
    requires n > 0
    ensures ReadInt(s) == Some(Parsed(n, [])) <==> s == PrintInt(n)
  {
    hide PrintNat, DigitsValue, DigitRun;
    if s == PrintInt(n) {
      IntReads(n, []);
      assert s + [] == s;
    }
    if ReadInt(s) == Some(Parsed(n, [])) {
      assert s != [] && s[0] != '-';
      assert ReadNat(s).Some? && DigitRun(s) == |s| && s[..|s|] == s;
      DigitsPrinted(s);
    }
  }

  // ---- Values and objects ----

  predicate IsWhitespace(c: byte) {
    c == ' ' || c == '\t' || c == '\n' || c == '\r'
  }

  function SkipWhitespace(t: str): (r: str)
    ensures |r| <= |t|
    ensures t != [] && !IsWhitespace(t[0]) ==> r == t
  {
    if t != [] && IsWhitespace(t[0]) then SkipWhitespace(t[1..]) else t
  }

  function PrintString(s: str): str {
    ['"'] + (Escape(s) + ['"'])
  }

  /** The items of a non-empty array with its closing bracket. */
  function PrintItems(items: seq<str>): str
    requires items != []
  {
    PrintString(items[0]) + (if |items| == 1 then [']'] else [','] + PrintItems(items[1..]))
  }

  const TRUE_TEXT: str := "true"
  const FALSE_TEXT: str := "false"
  const NULL_TEXT: str := "null"

  function PrintValue(v: Value): str {
    match v
    case Text(s) => PrintString(s)
    case Number(n) => PrintInt(n)
    case Flag(b) => if b then TRUE_TEXT else FALSE_TEXT
    case Null => NULL_TEXT
    case Texts(items) => ['['] + (if items == [] then [']'] else PrintItems(items))
  }

  /** The members of a non-empty object with its closing brace. */
  function PrintMembers(ms: seq<Member>): str
    requires ms != []
  {
    MemberText(ms[0], if |ms| == 1 then ['}'] else [','] + PrintMembers(ms[1..]))
  }

  function MemberText(m: Member, more: str): str {
    PrintString(m.key) + ([':'] + (PrintValue(m.value) + more))
  }

  function PrintObject(ms: seq<Member>): str {
    ['{'] + (if ms == [] then ['}'] else PrintMembers(ms))
  }

  /** The items after an opening bracket or a comma, up to and with the closing bracket. */
  function ReadItems(t: str): Option<Parsed<seq<str>>>
    ensures ReadItems(t).Some? ==> |ReadItems(t).value.rest| < |t|
    decreases |t|
  {
    var s := SkipWhitespace(t);
    if s == [] || s[0] != '"' then None
    else
      match ReadString(s[1..])
      case None => None
      case Some(item) =>
        var u := SkipWhitespace(item.rest);
        if u == [] then None
        else if u[0] == ']' then Some(Parsed([item.value], u[1..]))
        else if u[0] == ',' then
          match ReadItems(u[1..])
          case None => None
          case Some(more) => Some(Parsed([item.value] + more.value, more.rest))
        else None
  }

  function ReadValue(t: str): Option<Parsed<Value>>
    ensures ReadValue(t).Some? ==> |ReadValue(t).value.rest| < |t|
  {
    if t == [] then None
    else if t[0] == '"' then
      match ReadString(t[1..])
      case None => None
      case Some(p) => Some(Parsed(Text(p.value), p.rest))
    else if t[0] == '-' || IsDigit(t[0]) then
      match ReadInt(t)
      case None => None
      case Some(p) => Some(Parsed(Number(p.value), p.rest))
    else if TRUE_TEXT <= t then Some(Parsed(Flag(true), t[4..]))
    else if FALSE_TEXT <= t then Some(Parsed(Flag(false), t[5..]))
    else if NULL_TEXT <= t then Some(Parsed(Null, t[4..]))
    else if t[0] == '[' then
      var s := SkipWhitespace(t[1..]);
      if s != [] && s[0] == ']' then Some(Parsed(Texts([]), s[1..]))
      else
        match ReadItems(s)
        case None => None
        case Some(p) => Some(Parsed(Texts(p.value), p.rest))
    else None
  }

  /** The members after an opening brace or a comma, up to and with the closing brace. */
  function ReadMembers(t: str): Option<Parsed<seq<Member>>>
    ensures ReadMembers(t).Some? ==> |ReadMembers(t).value.rest| < |t|
    decreases |t|
  {
    var s := SkipWhitespace(t);
    if s == [] || s[0] != '"' then None
    else
      match ReadString(s[1..])
      case None => None
      case Some(key) =>
        var u := SkipWhitespace(key.rest);
        if u == [] || u[0] != ':' then None
        else
          match ReadValue(SkipWhitespace(u[1..]))
          case None => None
          case Some(value) =>
            var m := Member(key.value, value.value);
            var v := SkipWhitespace(value.rest);
            if v == [] then None
            else if v[0] == '}' then Some(Parsed([m], v[1..]))
            else if v[0] == ',' then
              match ReadMembers(v[1..])
              case None => None
              case Some(more) => Some(Parsed([m] + more.value, more.rest))
            else None
  }

  function ReadObject(t: str): Option<seq<Member>> {
    var s := SkipWhitespace(t);
    if s == [] || s[0] != '{' then None
    else
      var u := SkipWhitespace(s[1..]);
      if u != [] && u[0] == '}' then (if SkipWhitespace(u[1..]) == [] then Some([]) else None)
      else
        match ReadMembers(u)
        case None => None
        case Some(p) => if SkipWhitespace(p.rest) == [] then Some(p.value) else None
  }

  function CoerceAll(items: seq<str>): (r: seq<str>)
    ensures |r| == |items|
  {
    seq(|items|, i requires 0 <= i < |items| => Coerce(items[i]))
  }

  function CoerceValue(v: Value): Value {
    match v
    case Text(s) => Text(Coerce(s))
    case Texts(items) => Texts(CoerceAll(items))
    case _ => v
  }

  function CoerceMembers(ms: seq<Member>): (r: seq<Member>)
    ensures |r| == |ms|
  {
    seq(|ms|, i requires 0 <= i < |ms| => Member(Coerce(ms[i].key), CoerceValue(ms[i].value)))
  }

  lemma StringReads(s: str, rest: str)
    ensures PrintString(s) + rest == ['"'] + (Escape(s) + (['"'] + rest))
    ensures ReadString((PrintString(s) + rest)[1..]) == Some(Parsed(Coerce(s), rest))
  {
    hide ReadString, Escape, Coerce;
    EscapeReads(s, rest);
    assert (PrintString(s) + rest)[1..] == Escape(s) + (['"'] + rest);
  }

  /** A printed item at the front is read, and what follows it decides. */
  lemma ItemReads(item: str, after: str)
    requires after != [] && SkipWhitespace(after) == after
    ensures ReadItems(PrintString(item) + after) ==
            if after[0] == ']' then Some(Parsed([Coerce(item)], after[1..]))
            else if after[0] == ',' then
              match ReadItems(after[1..])
              case None => None
              case Some(more) => Some(Parsed([Coerce(item)] + more.value, more.rest))
            else None
  {
    hide ReadString, PrintString, Escape, Coerce;
    StringReads(item, after);
    var t := PrintString(item) + after;
    assert t[0] == '"' && SkipWhitespace(t) == t;
  }

  lemma {:induction false} ItemsRead(items: seq<str>, rest: str)
    requires items != []
    ensures ReadItems(PrintItems(items) + rest) == Some(Parsed(CoerceAll(items), rest))
  {
    hide ReadString, ReadItems, PrintString, Escape, Coerce;
    if |items| == 1 {
      var after := [']'] + rest;
      assert PrintItems(items) + rest == PrintString(items[0]) + after;
      ItemReads(items[0], after);
      assert after[1..] == rest;
      assert CoerceAll(items) == [Coerce(items[0])];
    } else {
      var more := PrintItems(items[1..]);
      var after := [','] + (more + rest);
      Associative(PrintString(items[0]), [','] + more, rest);
      Associative([','], more, rest);
      assert PrintItems(items) + rest == PrintString(items[0]) + after;
      ItemReads(items[0], after);
      ItemsRead(items[1..], rest);
      assert after[1..] == more + rest;
      assert CoerceAll(items) == [Coerce(items[0])] + CoerceAll(items[1..]);
    }
  }

  lemma PrintIntFront(n: int)
    ensures PrintInt(n) != [] && (PrintInt(n)[0] == '-' || IsDigit(PrintInt(n)[0]))
  {
    var m := if n < 0 then -n else n;
    assert PrintNat(m)[0] in PrintNat(m);
  }

  lemma LiteralReads(v: Value, rest: str)
    requires v.Flag? || v.Null?
    ensures ReadValue(PrintValue(v) + rest) == Some(Parsed(v, rest))
  {
    hide ReadString, ReadInt, ReadItems;
    var word := PrintValue(v);
    var t := word + rest;
    assert t[..|word|] == word && t[|word|..] == rest && t[0] == word[0];
  }

  lemma NumberReads(n: int, rest: str)
    requires EndsNumber(rest)
    ensures ReadValue(PrintInt(n) + rest) == Some(Parsed(Number(n), rest))
  {
    hide ReadString, ReadInt, ReadItems, PrintInt;
    IntReads(n, rest);
    PrintIntFront(n);
  }

  lemma TextReads(s: str, rest: str)
    ensures ReadValue(PrintString(s) + rest) == Some(Parsed(Text(Coerce(s)), rest))
  {
    hide ReadString, ReadInt, ReadItems, Escape;
    StringReads(s, rest);
  }

  lemma TextsRead(items: seq<str>, rest: str)
    ensures ReadValue(PrintValue(Texts(items)) + rest) == Some(Parsed(Texts(CoerceAll(items)), rest))
  {
    hide ReadString, ReadInt, ReadItems, Escape;
    var t := PrintValue(Texts(items)) + rest;
    if items == [] {
      assert t[1..] == [']'] + rest && t[1..][1..] == rest;
      assert CoerceAll(items) == [];
    } else {
      ItemsRead(items, rest);
      assert t[1..] == PrintItems(items) + rest;
      assert t[1..][0] == '"';
    }
  }

  lemma ValueReads(v: Value, rest: str)
    requires rest != [] && (rest[0] == ',' || rest[0] == '}')
    ensures PrintValue(v) != [] && !IsWhitespace(PrintValue(v)[0])
    ensures ReadValue(PrintValue(v) + rest) == Some(Parsed(CoerceValue(v), rest))
  {
    hide ReadValue, PrintInt, PrintItems;
    match v
    case Text(s) => TextReads(s, rest);
    case Number(n) =>
      PrintIntFront(n);
      NumberReads(n, rest);
    case Texts(items) => TextsRead(items, rest);
    case _ => LiteralReads(v, rest);
  }

  /** One member and what follows it: the end of the object, or a comma and more members. */
  lemma MemberStep(m: Member, last: str)
    requires last != [] && (last[0] == '}' || last[0] == ',')
    ensures var read := Member(Coerce(m.key), CoerceValue(m.value));
            ReadMembers(MemberText(m, last)) ==
            if last[0] == '}' then Some(Parsed([read], last[1..]))
            else
              match ReadMembers(last[1..])
              case None => None
              case Some(more) => Some(Parsed([read] + more.value, more.rest))
  {
    hide ReadString, PrintString, Escape, ReadValue, PrintValue, CoerceValue, Coerce;
    var valued := PrintValue(m.value) + last;
    var after := [':'] + valued;
    var t := PrintString(m.key) + after;
    StringReads(m.key, after);
    ValueReads(m.value, last);
    assert SkipWhitespace(t) == t && SkipWhitespace(after) == after && after[1..] == valued;
    assert SkipWhitespace(valued) == valued && SkipWhitespace(last) == last;
  }

  lemma MemberTextTail(m: Member, more: str, rest: str)
    ensures MemberText(m, more) + rest == MemberText(m, more + rest)
  {
    hide PrintString, PrintValue;
    var k, v := PrintString(m.key), PrintValue(m.value);
    Associative(k, [':'] + (v + more), rest);
    Associative([':'], v + more, rest);
    Associative(v, more, rest);
  }

  lemma {:induction false} MembersRead(ms: seq<Member>, rest: str)
    requires ms != []
    ensures ReadMembers(PrintMembers(ms) + rest) == Some(Parsed(CoerceMembers(ms), rest))
  {
    hide ReadMembers, MemberText, CoerceValue, Coerce;
    var last := if |ms| == 1 then ['}'] + rest else [','] + (PrintMembers(ms[1..]) + rest);
    MemberTextTail(ms[0], if |ms| == 1 then ['}'] else [','] + PrintMembers(ms[1..]), rest);
    if |ms| > 1 {
      Associative([','], PrintMembers(ms[1..]), rest);
    }
    MemberStep(ms[0], last);
    if |ms| == 1 {
      assert last[1..] == rest;
      assert CoerceMembers(ms) == [Member(Coerce(ms[0].key), CoerceValue(ms[0].value))];
    } else {
      MembersRead(ms[1..], rest);
      assert last[1..] == PrintMembers(ms[1..]) + rest;
      assert CoerceMembers(ms) == [Member(Coerce(ms[0].key), CoerceValue(ms[0].value))] + CoerceMembers(ms[1..]);
    }
  }

  /** Printing an object and reading it back changes invalid UTF-8 and nothing else. */
  lemma ObjectReads(ms: seq<Member>)
    ensures ReadObject(PrintObject(ms)) == Some(CoerceMembers(ms))
  {
    hide ReadMembers, ReadString, PrintValue, CoerceValue, Coerce, Escape;
    var t := PrintObject(ms);
    if ms == [] {
      assert t[1..] == ['}'] && t[1..][1..] == [];
      assert CoerceMembers(ms) == [];
    } else {
      MembersRead(ms, []);
      assert t[1..] == PrintMembers(ms) && PrintMembers(ms) + [] == PrintMembers(ms);
      StringReads(ms[0].key, []);
      assert t[1..][0] == '"';
    }
  }
}
