/** application/x-www-form-urlencoded text (appendix B of RFC 6749) as net/url writes and reads it. */
module FormCodec {
  import opened Bytes

  datatype Pair = Pair(name: str, value: str)

  type Values = map<str, seq<str>>

  const AMPERSAND: str := "&"

  // ---- Percent encoding ----

  function UpperHex(n: int): byte
    requires 0 <= n < 16
  {
    if n < 10 then Byte('0' as int + n) else Byte('A' as int + n - 10)
  }

  predicate Unreserved(c: byte) {
    || 'A' <= c <= 'Z' || 'a' <= c <= 'z' || '0' <= c <= '9'
    || c == '-' || c == '_' || c == '.' || c == '~'
  }

  function EscapeByte(c: byte): str {
    if Unreserved(c) then [c]
    else if c == ' ' then ['+']
    else ['%', UpperHex(c as int / 16), UpperHex(c as int % 16)]
  }

  function Escape(s: str): str {
    if s == [] then [] else EscapeByte(s[0]) + Escape(s[1..])
  }

  function Unescape(t: str): Option<str> {
    if t == [] then Some([])
    else if t[0] == '%' then
      if |t| < 3 then None
      else
        match (HexValue(t[1]), HexValue(t[2]))
        case (Some(high), Some(low)) => Cons(Byte(high as int * 16 + low as int), Unescape(t[3..]))
        case _ => None
    else Cons(if t[0] == '+' then ' ' else t[0], Unescape(t[1..]))
  }

  function Cons(c: byte, tail: Option<str>): Option<str> {
    match tail case None => None case Some(s) => Some([c] + s)
  }

  lemma ByteUnescapes(c: byte, t: str)
    ensures Unescape(EscapeByte(c) + t) == Cons(c, Unescape(t))
  {
    var e := EscapeByte(c) + t;
    if |EscapeByte(c)| == 1 {
      assert e[1..] == t;
    } else {
      HexDigits(c);
      assert e[3..] == t && e[1] == UpperHex(c as int / 16) && e[2] == UpperHex(c as int % 16);
    }
  }

  lemma HexDigits(c: byte)
    ensures 0 <= c as int / 16 < 16
    ensures HexValue(UpperHex(c as int / 16)) == Some(c as int / 16)
    ensures HexValue(UpperHex(c as int % 16)) == Some(c as int % 16)
  {
  }

  lemma {:induction false} Unescapes(s: str)
    ensures Unescape(Escape(s)) == Some(s)
  {
    hide Unescape, EscapeByte;
    if s == [] {
      assert Unescape([]) == Some([]) by { UnescapeNothing(); }
    } else {
      ByteUnescapes(s[0], Escape(s[1..]));
      Unescapes(s[1..]);
      assert [s[0]] + s[1..] == s;
    }
  }

  lemma UnescapeNothing()
    ensures Unescape([]) == Some([])
  {
  }

  /** The bytes that separate pairs and names never come out of escaping. */
  predicate Separator(c: byte) {
    c == '&' || c == '=' || c == ';'
  }

  lemma EscapedByteIsPlain(c: byte)
    ensures forall d | d in EscapeByte(c) :: !Separator(d)
  {
    if !Unreserved(c) && c != ' ' {
      HexDigits(c);
      assert !Separator(UpperHex(c as int / 16)) && !Separator(UpperHex(c as int % 16));
    }
  }

  lemma {:induction false} EscapedIsPlain(s: str)
    ensures forall d | d in Escape(s) :: !Separator(d)
  {
    hide EscapeByte;
    if s != [] {
      EscapedByteIsPlain(s[0]);
      EscapedIsPlain(s[1..]);
    }
  }

  /** A spelling in which nothing is escaped without need, and everything else in upper case. */
  predicate Canonical(t: str) {
    if t == [] then true
    else if t[0] == '%' then
      && |t| >= 3 && t[1] in "0123456789ABCDEF" && t[2] in "0123456789ABCDEF"
      && HexValue(t[1]).Some? && HexValue(t[2]).Some?
      && (var c := Byte(16 * HexValue(t[1]).value + HexValue(t[2]).value); !Unreserved(c) && c != ' ')
      && Canonical(t[3..])
    else (t[0] == '+' || Unreserved(t[0])) && Canonical(t[1..])
  }

  /** Of all the texts that are read as a string, escaping writes the one canonical spelling. */
  lemma {:induction false} EscapeExactly(s: str, t: str)
    ensures Escape(s) == t <==> Canonical(t) && Unescape(t) == Some(s)
  {
    Unescapes(s);
    EscapedIsCanonical(s);
    if Canonical(t) && Unescape(t) == Some(s) {
      CanonicalIsEscaped(t);
    }
  }

  lemma {:induction false} EscapedIsCanonical(s: str)
    ensures Canonical(Escape(s))
  {
    hide Escape;
    if s == [] {
      assert Escape(s) == [] by { EscapeNothing(); }
    } else {
      EscapedIsCanonical(s[1..]);
      ByteIsCanonical(s[0], Escape(s[1..]));
      EscapeStep(s);
    }
  }

  lemma EscapeNothing()
    ensures Escape([]) == []
  {
  }

  lemma EscapeStep(s: str)
    requires s != []
    ensures Escape(s) == EscapeByte(s[0]) + Escape(s[1..])
  {
  }

  lemma ByteIsCanonical(c: byte, t: str)
    requires Canonical(t)
    ensures Canonical(EscapeByte(c) + t)
  {
    var e := EscapeByte(c) + t;
    if |EscapeByte(c)| == 1 {
      assert e[1..] == t;
    } else {
      HexDigits(c);
      UpperDigit(c as int / 16);
      UpperDigit(c as int % 16);
      assert e[3..] == t && e[1] == UpperHex(c as int / 16) && e[2] == UpperHex(c as int % 16);
    }
  }

  lemma UpperDigit(n: int)
    requires 0 <= n < 16
    ensures UpperHex(n) in "0123456789ABCDEF"
  {
    assert "0123456789ABCDEF"[n] == UpperHex(n);
  }

  lemma {:induction false} CanonicalIsEscaped(t: str)
    requires Canonical(t)
    ensures Unescape(t).Some? && Escape(Unescape(t).value) == t
    decreases |t|
  {
    hide Escape, EscapeByte, Canonical, Unescape;
    if t == [] {
      UnescapeNothing();
      EscapeNothing();
    } else {
      var c, n := CanonicalFront(t);
      CanonicalIsEscaped(t[n..]);
      var tail := Unescape(t[n..]).value;
      EscapeStep([c] + tail);
      assert ([c] + tail)[1..] == tail && t == t[..n] + t[n..];
    }
  }

  /** The byte that a canonical spelling begins with, and the length of its escape. */
  lemma CanonicalFront(t: str) returns (c: byte, n: nat)
    requires t != [] && Canonical(t)
    ensures 1 <= n <= |t| && EscapeByte(c) == t[..n] && Canonical(t[n..])
    ensures Unescape(t) == Cons(c, Unescape(t[n..]))
  {
    if t[0] == '%' {
      UpperOnly(t[1]);
      UpperOnly(t[2]);
      c, n := Byte(16 * HexValue(t[1]).value + HexValue(t[2]).value), 3;
      assert c as int / 16 == HexValue(t[1]).value && c as int % 16 == HexValue(t[2]).value;
    } else {
      c, n := if t[0] == '+' then ' ' else t[0], 1;
    }
  }

  lemma UpperOnly(c: byte)
    requires c in "0123456789ABCDEF"
    ensures HexValue(c).Some? && UpperHex(HexValue(c).value) == c
  {
  }

  // ---- Pairs ----

  function Segment(p: Pair): str {
    Escape(p.name) + ['='] + Escape(p.value)
  }

  function Segments(pairs: seq<Pair>): (r: seq<str>)
    ensures |r| == |pairs|
  {
    seq(|pairs|, i requires 0 <= i < |pairs| => Segment(pairs[i]))
  }

  function Encode(pairs: seq<Pair>): str {
    Join(Segments(pairs), AMPERSAND)
  }

  /** One segment between ampersands: a semicolon or a bad escape is an error. */
  function ParseSegment(segment: str): Option<Pair> {
    if ';' in segment then None
    else
      var i := IndexOf(segment, '=');
      match (Unescape(segment[..i]), Unescape(if i < |segment| then segment[i + 1..] else []))
      case (Some(name), Some(value)) => Some(Pair(name, value))
      case _ => None
  }

  /** url.ParseQuery, whose empty segments mean nothing; any error spoils the whole query. */
  function Parse(query: str): Option<seq<Pair>>
    decreases |query|
  {
    if query == [] then Some([])
    else
      var i := IndexOf(query, '&');
      var rest := if i < |query| then query[i + 1..] else [];
      if i == 0 then Parse(rest)
      else
        match (ParseSegment(query[..i]), Parse(rest))
        case (Some(pair), Some(pairs)) => Some([pair] + pairs)
        case _ => None
  }

  lemma SegmentParses(p: Pair)
    ensures ParseSegment(Segment(p)) == Some(p)
    ensures Segment(p) != [] && '&' !in Segment(p)
  {
    hide Escape, Unescape;
    EscapedIsPlain(p.name);
    EscapedIsPlain(p.value);
    Unescapes(p.name);
    Unescapes(p.value);
    IndexOfPrefix(Escape(p.name), '=', Escape(p.value));
    var s := Segment(p);
    assert s[..|Escape(p.name)|] == Escape(p.name) && s[|Escape(p.name)| + 1..] == Escape(p.value);
    assert !Separator('=') || ';' !in s;
  }

  /** Parsing what was encoded gives the pairs back, in order. */
  lemma {:induction false} ParseEncoded(pairs: seq<Pair>)
    ensures Parse(Encode(pairs)) == Some(pairs)
  {
    hide Segment, ParseSegment;
    var segments := Segments(pairs);
    if pairs != [] {
      SegmentParses(pairs[0]);
      var s := Segment(pairs[0]);
      assert segments[1..] == Segments(pairs[1..]);
      ParseEncoded(pairs[1..]);
      var q := Encode(pairs);
      if |pairs| == 1 {
        assert q == s && IndexOf(q, '&') == |q|;
        assert q[..|q|] == q && pairs[1..] == [];
        assert Parse([]) == Some([]);
      } else {
        assert q == s + ['&'] + Encode(pairs[1..]);
        IndexOfPrefix(s, '&', Encode(pairs[1..]));
        assert q[..|s|] == s && q[|s| + 1..] == Encode(pairs[1..]);
      }
      assert [pairs[0]] + pairs[1..] == pairs;
    }
  }

  // ---- Values ----

  /** The values given under one name, in order. */
  function Entries(pairs: seq<Pair>, name: str): seq<str> {
    if pairs == [] then []
    else (if pairs[0].name == name then [pairs[0].value] else []) + Entries(pairs[1..], name)
  }

  function ToValues(pairs: seq<Pair>): Values {
    map name | name in (set p | p in pairs :: p.name) :: Entries(pairs, name)
  }

  /** url.Values.Get: the first value, or the empty string. */
  function Get(values: Values, name: str): str {
    if name in values && values[name] != [] then values[name][0] else []
  }

  lemma {:induction false} EntriesPresent(pairs: seq<Pair>, name: str)
    ensures Entries(pairs, name) != [] <==> exists p | p in pairs :: p.name == name
  {
    if pairs != [] {
      EntriesPresent(pairs[1..], name);
      assert pairs == [pairs[0]] + pairs[1..];
    }
  }

  lemma {:induction false} EntriesCount(pairs: seq<Pair>, name: str, value: str)
    ensures multiset(Entries(pairs, name))[value] == multiset(pairs)[Pair(name, value)]
  {
    if pairs != [] {
      EntriesCount(pairs[1..], name, value);
      assert pairs == [pairs[0]] + pairs[1..];
    }
  }

  /** The values under a name are the same up to order, however the pairs are ordered. */
  lemma EntriesPermute(p: seq<Pair>, q: seq<Pair>, name: str)
    requires multiset(p) == multiset(q)
    ensures multiset(Entries(p, name)) == multiset(Entries(q, name))
    ensures |Entries(p, name)| == |Entries(q, name)|
    ensures |Entries(p, name)| == 1 ==> Entries(p, name) == Entries(q, name)
  {
    var a, b := Entries(p, name), Entries(q, name);
    hide Entries;
    forall v ensures multiset(a)[v] == multiset(b)[v] {
      EntriesCount(p, name, v);
      EntriesCount(q, name, v);
    }
    SameElements(a, b);
  }

  lemma SameElements(a: seq<str>, b: seq<str>)
    requires multiset(a) == multiset(b)
    ensures |a| == |b| && (|a| == 1 ==> a == b)
  {
    assert |multiset(a)| == |a| && |multiset(b)| == |b|;
    if |a| == 1 {
      assert a[0] in multiset(b);
    }
  }

  lemma NamesPermute(p: seq<Pair>, q: seq<Pair>)
    requires multiset(p) == multiset(q)
    ensures ToValues(p).Keys == ToValues(q).Keys
  {
    assert forall x :: x in p <==> x in multiset(p);
    assert forall x :: x in q <==> x in multiset(q);
  }

  // ---- What else is read ----

  /** Two readings one after the other; a failure of either spoils both. */
  function Then(a: Option<str>, b: Option<str>): Option<str> {
    match (a, b) case (Some(x), Some(y)) => Some(x + y) case _ => None
  }

  /** A character that stands for itself, a plus for a space, and a percent sign for the two digits that follow it. */
  lemma UnescapeFront(t: str)
    requires t != []
    ensures t[0] !in {'%', '+'} ==> Unescape(t) == Then(Some([t[0]]), Unescape(t[1..]))
    ensures t[0] == '+' ==> Unescape(t) == Then(Some([' ']), Unescape(t[1..]))
    ensures t[0] == '%' && (|t| < 3 || HexValue(t[1]).None? || HexValue(t[2]).None?) ==> Unescape(t) == None
    ensures t[0] == '%' && |t| >= 3 && HexValue(t[1]).Some? && HexValue(t[2]).Some? ==>
              Unescape(t) == Then(Some([Byte(16 * HexValue(t[1]).value + HexValue(t[2]).value)]), Unescape(t[3..]))
  {
  }

  /** Sixteen digits, the last six in either case. */
  lemma HexDigitsExactly(c: byte, n: nibble)
    ensures HexValue(c) == Some(n) <==> c == "0123456789ABCDEF"[n] || c == "0123456789abcdef"[n]
  {
    var upper: str, lower: str := "0123456789ABCDEF", "0123456789abcdef";
    assert forall k | 0 <= k < 10 :: upper[k] as int == '0' as int + k && lower[k] == upper[k];
    assert forall k | 10 <= k < 16 :: upper[k] as int == 'A' as int + k - 10 && lower[k] as int == 'a' as int + k - 10;
  }

  /** One segment: everything before the first equals sign is the name, everything after it the value. */
  lemma SegmentExactly(name: str, value: str)
    requires '=' !in name && ';' !in name && ';' !in value
    ensures ParseSegment(name + ['='] + value) ==
            match (Unescape(name), Unescape(value)) case (Some(n), Some(v)) => Some(Pair(n, v)) case _ => None
    ensures ParseSegment(name) == match Unescape(name) case Some(n) => Some(Pair(n, [])) case None => None
  {
    hide Unescape;
    IndexOfPrefix(name, '=', value);
    var s := name + ['='] + value;
    assert s[..|name|] == name && s[|name| + 1..] == value;
    assert IndexOf(name, '=') == |name| && name[..|name|] == name;
    assert ';' !in s;
    UnescapeNothing();
  }

  lemma SemicolonIsRefused(segment: str)
    ensures ';' in segment ==> ParseSegment(segment) == None
  {
  }

  function Both(a: Option<seq<Pair>>, b: Option<seq<Pair>>): Option<seq<Pair>> {
    match (a, b) case (Some(x), Some(y)) => Some(x + y) case _ => None
  }

  /** A query is read segment by segment: empty ones mean nothing, and a bad one spoils the whole. */
  lemma ParseFront(segment: str, rest: str)
    requires '&' !in segment
    ensures Parse([]) == Some([])
    ensures segment != [] ==>
              (Parse(segment) == match ParseSegment(segment) case None => None case Some(p) => Some([p]))
    ensures Parse(segment + ['&'] + rest) == Both(Parse(segment), Parse(rest))
  {
    hide ParseSegment;
    IndexOfPrefix(segment, '&', rest);
    var q := segment + ['&'] + rest;
    assert q[..|segment|] == segment && q[|segment| + 1..] == rest;
    assert IndexOf(segment, '&') == |segment| && segment[..|segment|] == segment;
    if segment == [] {
      assert Parse(rest).Some? ==> [] + Parse(rest).value == Parse(rest).value;
    } else if ParseSegment(segment).Some? {
      var p := ParseSegment(segment).value;
      assert [p] + [] == [p];
      assert Parse(segment) == Some([p]);
    }
  }
}
