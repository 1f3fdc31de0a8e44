/** UTF-8 as Go reads it: an invalid byte counts as one replacement rune of width one. */
module Utf8 {
  import opened Bytes

  const RUNE_ERROR: int := 0xFFFD

  /** U+FFFD in UTF-8. */
  const REPLACEMENT: str := [Byte(0xEF), Byte(0xBF), Byte(0xBD)]

  predicate InRange(c: byte, low: int, high: int) {
    low <= c as int <= high
  }

  predicate Continuation(c: byte) {
    InRange(c, 0x80, 0xBF)
  }

  /** The width of the well-formed rune at the front, zero when there is none. */
  function RuneWidth(s: str): (w: nat)
    ensures w <= 4 && w <= |s|
    ensures w == 1 <==> s != [] && s[0] as int < 0x80
  {
    if s == [] then 0
    else if InRange(s[0], 0, 0x7F) then 1
    else if InRange(s[0], 0xC2, 0xDF) then if |s| >= 2 && Continuation(s[1]) then 2 else 0
    else if InRange(s[0], 0xE0, 0xEF) then
      var low := if s[0] as int == 0xE0 then 0xA0 else 0x80;
      var high := if s[0] as int == 0xED then 0x9F else 0xBF;
      if |s| >= 3 && InRange(s[1], low, high) && Continuation(s[2]) then 3 else 0
    else if InRange(s[0], 0xF0, 0xF4) then
      var low := if s[0] as int == 0xF0 then 0x90 else 0x80;
      var high := if s[0] as int == 0xF4 then 0x8F else 0xBF;
      if |s| >= 4 && InRange(s[1], low, high) && Continuation(s[2]) && Continuation(s[3]) then 4 else 0
    else 0
  }

  function RuneValue(s: str): (r: int)
    requires RuneWidth(s) > 0
    ensures 0 <= r <= 0x10FFFF && !(0xD800 <= r < 0xE000)
    ensures RuneWidth(s) > 1 ==> r >= 0x80
  {
    var w := RuneWidth(s);
    if w == 1 then s[0] as int
    else if w == 2 then (s[0] as int - 0xC0) * 64 + (s[1] as int - 0x80)
    else if w == 3 then (s[0] as int - 0xE0) * 4096 + (s[1] as int - 0x80) * 64 + (s[2] as int - 0x80)
    else (s[0] as int - 0xF0) * 262144 + (s[1] as int - 0x80) * 4096 + (s[2] as int - 0x80) * 64 + (s[3] as int - 0x80)
  }

  /** The runes Go's range loop yields. */
  function Runes(s: str): seq<int> {
    if s == [] then []
    else
      var w := RuneWidth(s);
      if w == 0 then [RUNE_ERROR] + Runes(s[1..]) else [RuneValue(s)] + Runes(s[w..])
  }

  /** Go's utf8.ValidString. */
  predicate Valid(s: str) {
    s == [] || (RuneWidth(s) > 0 && Valid(s[RuneWidth(s)..]))
  }

  /** How far Go's range loop steps: an invalid byte counts alone. */
  function FrontWidth(s: str): (w: nat)
    requires s != []
    ensures 1 <= w <= |s|
  {
    if RuneWidth(s) == 0 then 1 else RuneWidth(s)
  }

  function CoerceFront(s: str): str
    requires s != []
  {
    if RuneWidth(s) == 0 then REPLACEMENT else s[..RuneWidth(s)]
  }

  /** What encoding/json makes of a string: every invalid byte becomes U+FFFD. */
  function Coerce(s: str): str {
    if s == [] then [] else CoerceFront(s) + Coerce(s[FrontWidth(s)..])
  }

  function EncodeRune(r: int): (s: str)
    requires 0 <= r <= 0x10FFFF
    ensures 1 <= |s| <= 4
  {
    if r < 0x80 then [Byte(r)]
    else if r < 0x800 then [Byte(0xC0 + r / 64), Byte(0x80 + r % 64)]
    else if r < 0x10000 then [Byte(0xE0 + r / 4096), Byte(0x80 + r / 64 % 64), Byte(0x80 + r % 64)]
    else [Byte(0xF0 + r / 262144), Byte(0x80 + r / 4096 % 64), Byte(0x80 + r / 64 % 64), Byte(0x80 + r % 64)]
  }

  /** Go's unicode.IsControl: general category Cc. */
  predicate IsControl(r: int) {
    0 <= r < 0x20 || 0x7F <= r < 0xA0
  }

  /** Go's unicode.IsSpace: the Unicode White_Space property. */
  predicate IsSpace(r: int) {
    9 <= r <= 13 || r == 0x20 || r == 0x85 || r == 0xA0 || r == 0x1680 || 0x2000 <= r <= 0x200A
    || r == 0x2028 || r == 0x2029 || r == 0x202F || r == 0x205F || r == 0x3000
  }

  predicate HasControl(s: str) {
    exists r | r in Runes(s) :: IsControl(r)
  }

  predicate HasSpace(s: str) {
    exists r | r in Runes(s) :: IsSpace(r)
  }

  /** A rune is read off its own bytes, whatever follows them. */
  lemma RuneAtFront(s: str, rest: str)
    requires RuneWidth(s) > 0
    ensures var w := RuneWidth(s);
            && RuneWidth(s[..w] + rest) == w
            && (s[..w] + rest)[..w] == s[..w] && (s[..w] + rest)[w..] == rest
            && RuneValue(s[..w] + rest) == RuneValue(s)
  {
    var w := RuneWidth(s);
    var t := s[..w] + rest;
    assert t[..w] == s[..w] && t[w..] == rest;
    assert forall k | 0 <= k < w :: t[k] == s[k];
  }

  lemma {:induction false} ValidConcat(a: str, b: str)
    requires Valid(a)
    ensures Runes(a + b) == Runes(a) + Runes(b)
    ensures Valid(a + b) <==> Valid(b)
    decreases |a|
  {
    hide RuneWidth, RuneValue, IsControl, IsSpace, Coerce;
    if a == [] {
      assert a + b == b;
    } else {
      var w := RuneWidth(a);
      var rest := a[w..] + b;
      assert a + b == a[..w] + rest;
      RuneAtFront(a, rest);
      ValidConcat(a[w..], b);
      var front := [RuneValue(a)];
      assert Runes(a + b) == front + Runes(rest);
      assert Runes(a) == front + Runes(a[w..]);
      assert front + (Runes(a[w..]) + Runes(b)) == (front + Runes(a[w..])) + Runes(b);
    }
  }

  /** A string survives a JSON round trip exactly when it is valid UTF-8. */
  lemma {:induction false} CoerceIsIdentity(s: str)
    ensures |Coerce(s)| >= |s|
    ensures Coerce(s) == s <==> Valid(s)
    ensures |Coerce(s)| == |s| <==> Valid(s)
    decreases |s|
  {
    hide RuneWidth;
    if s != [] {
      var w := FrontWidth(s);
      CoerceIsIdentity(s[w..]);
      assert s == s[..w] + s[w..];
      if RuneWidth(s) > 0 {
        assert Coerce(s)[w..] == Coerce(s[w..]);
      }
    }
  }

  lemma CoerceFrontWidth(s: str, rest: str)
    requires s != []
    ensures RuneWidth(CoerceFront(s) + rest) == |CoerceFront(s)| > 0
    ensures (CoerceFront(s) + rest)[|CoerceFront(s)|..] == rest
  {
    if RuneWidth(s) == 0 {
      RuneAtFront(REPLACEMENT, rest);
      assert REPLACEMENT[..3] == REPLACEMENT;
    } else {
      RuneAtFront(s, rest);
    }
  }

  lemma {:induction false} CoerceIsValid(s: str)
    ensures Valid(Coerce(s)) && Coerce(Coerce(s)) == Coerce(s)
    decreases |s|
  {
    hide RuneWidth, CoerceFront;
    if s != [] {
      var rest := Coerce(s[FrontWidth(s)..]);
      CoerceFrontWidth(s, rest);
      CoerceIsValid(s[FrontWidth(s)..]);
      CoerceIsIdentity(Coerce(s));
    }
  }

  // ---- The encoding ----

  /** Unicode scalar values: code points that are no surrogates. */
  predicate Scalar(r: int) {
    0 <= r < 0xD800 || 0xE000 <= r <= 0x10FFFF
  }

  lemma TwoBytes(a: int, b: int, r: int)
    requires 0 <= b < 64
    ensures r == a * 64 + b <==> a == r / 64 && b == r % 64
  {
  }

  lemma ThreeBytes(a: int, b: int, c: int, r: int)
    requires 0 <= b < 64 && 0 <= c < 64
    ensures r == a * 4096 + b * 64 + c <==> a == r / 4096 && b == r / 64 % 64 && c == r % 64
  {
  }

  lemma FourBytes(a: int, b: int, c: int, d: int, r: int)
    requires 0 <= b < 64 && 0 <= c < 64 && 0 <= d < 64
    ensures r == a * 262144 + b * 4096 + c * 64 + d <==>
            a == r / 262144 && b == r / 4096 % 64 && c == r / 64 % 64 && d == r % 64
  {
    ThreeBytes(a * 64 + b, c, d, r);
    TwoBytes(a, b, r / 4096);
  }

  /** Every scalar value is read back from its encoding. */
  lemma EncodedRuneReads(r: int, rest: str)
    requires Scalar(r)
    ensures var s := EncodeRune(r) + rest;
            RuneWidth(s) == |EncodeRune(r)| && RuneValue(s) == r && s[|EncodeRune(r)|..] == rest
  {
    var e := EncodeRune(r);
    var s := e + rest;
    assert s[|e|..] == rest;
    if r < 0x80 {
      assert s[0] == e[0];
    } else if r < 0x800 {
      TwoBytes(r / 64, r % 64, r);
      assert s[0] == e[0] && s[1] == e[1];
      assert e[0] as int == 0xC0 + r / 64 && e[1] as int == 0x80 + r % 64;
    } else if r < 0x10000 {
      ThreeBytes(r / 4096, r / 64 % 64, r % 64, r);
      assert s[0] == e[0] && s[1] == e[1] && s[2] == e[2];
      EncodedThree(r);
    } else {
      FourBytes(r / 262144, r / 4096 % 64, r / 64 % 64, r % 64, r);
      assert s[0] == e[0] && s[1] == e[1] && s[2] == e[2] && s[3] == e[3];
      EncodedFour(r);
    }
  }

  lemma EncodedThree(r: int)
    requires Scalar(r) && 0x800 <= r < 0x10000
    ensures var e := EncodeRune(r);
            && |e| == 3 && RuneWidth(e) == 3
            && e[0] as int == 0xE0 + r / 4096 && e[1] as int == 0x80 + r / 64 % 64 && e[2] as int == 0x80 + r % 64
  {
    ThreeBytes(r / 4096, r / 64 % 64, r % 64, r);
  }

  lemma EncodedFour(r: int)
    requires 0x10000 <= r <= 0x10FFFF
    ensures var e := EncodeRune(r);
            && |e| == 4 && RuneWidth(e) == 4 && e[0] as int == 0xF0 + r / 262144
            && e[1] as int == 0x80 + r / 4096 % 64 && e[2] as int == 0x80 + r / 64 % 64 && e[3] as int == 0x80 + r % 64
  {
    FourBytes(r / 262144, r / 4096 % 64, r / 64 % 64, r % 64, r);
  }

  /** What is read as a rune is the shortest encoding of a scalar value. */
  lemma ReadRuneEncodes(s: str)
    requires RuneWidth(s) > 0
    ensures Scalar(RuneValue(s)) && s[..RuneWidth(s)] == EncodeRune(RuneValue(s))
  {
    var w, r := RuneWidth(s), RuneValue(s);
    if w == 1 {
      assert s[..1] == [s[0]];
    } else if w == 2 {
      TwoBytes(s[0] as int - 0xC0, s[1] as int - 0x80, r);
      assert s[..2] == [s[0], s[1]];
    } else if w == 3 {
      ThreeBytes(s[0] as int - 0xE0, s[1] as int - 0x80, s[2] as int - 0x80, r);
      ThreeIsLong(s);
      assert s[..3] == [s[0], s[1], s[2]];
    } else {
      FourBytes(s[0] as int - 0xF0, s[1] as int - 0x80, s[2] as int - 0x80, s[3] as int - 0x80, r);
      FourIsLong(s);
      assert s[..4] == [s[0], s[1], s[2], s[3]];
    }
  }

  lemma ThreeIsLong(s: str)
    requires RuneWidth(s) == 3
    ensures 0x800 <= RuneValue(s) < 0x10000
  {
  }

  lemma FourIsLong(s: str)
    requires RuneWidth(s) == 4
    ensures RuneValue(s) >= 0x10000
  {
  }

  function EncodeRunes(runes: seq<int>): str
    requires forall r | r in runes :: Scalar(r)
  {
    if runes == [] then [] else assert Scalar(runes[0]); EncodeRune(runes[0]) + EncodeRunes(runes[1..])
  }

  /** Valid texts are exactly the encodings of scalar values, and the range loop yields those. */
  lemma {:induction false} ValidExactly(s: str, runes: seq<int>)
    requires forall r | r in runes :: Scalar(r)
    ensures s == EncodeRunes(runes) <==> Valid(s) && Runes(s) == runes
    decreases |s| + |runes|
  {
    hide EncodeRune, RuneWidth, RuneValue;
    if s == EncodeRunes(runes) && runes != [] {
      var rest := EncodeRunes(runes[1..]);
      EncodedRuneReads(runes[0], rest);
      assert s == EncodeRune(runes[0]) + rest;
      ValidExactly(rest, runes[1..]);
    }
    if Valid(s) && Runes(s) == runes && s != [] {
      ReadRuneEncodes(s);
      var tail := s[RuneWidth(s)..];
      assert runes[0] == RuneValue(s) && runes[1..] == Runes(tail);
      ValidExactly(tail, runes[1..]);
      assert s == s[..RuneWidth(s)] + tail;
    }
  }
}
