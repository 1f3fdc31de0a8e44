/**
 * Unpadded base64url in strict mode (sections 3.5 and 5 of RFC 4648), with Go's rule that the decoder skips
 * carriage returns and line feeds wherever they stand.
 */
module Base64Url {
  import opened Bytes

  type sextet = n: int | 0 <= n < 64

  function Digit(n: sextet): byte {
    if n < 26 then Byte('A' as int + n)
    else if n < 52 then Byte('a' as int + n - 26)
    else if n < 62 then Byte('0' as int + n - 52)
    else if n == 62 then '-'
    else '_'
  }

  function DigitValue(c: byte): Option<sextet> {
    if 'A' <= c <= 'Z' then Some(c as int - 'A' as int)
    else if 'a' <= c <= 'z' then Some(c as int - 'a' as int + 26)
    else if '0' <= c <= '9' then Some(c as int - '0' as int + 52)
    else if c == '-' then Some(62)
    else if c == '_' then Some(63)
    else None
  }

  predicate AllDigits(t: str) {
    forall k | 0 <= k < |t| :: DigitValue(t[k]).Some?
  }

  function DigitsOf(t: str): (q: seq<sextet>)
    requires AllDigits(t)
    ensures |q| == |t| && forall k | 0 <= k < |t| :: DigitValue(t[k]) == Some(q[k])
  {
    seq(|t|, k requires 0 <= k < |t| => DigitValue(t[k]).value)
  }

  lemma DigitRoundTrip(n: sextet)
    ensures DigitValue(Digit(n)) == Some(n)
    ensures !IsNewline(Digit(n))
  {
  }

  lemma DigitValueRoundTrip(c: byte)
    requires DigitValue(c).Some?
    ensures Digit(DigitValue(c).value) == c
    ensures !IsNewline(c)
  {
  }

  predicate IsNewline(c: byte) {
    c == '\r' || c == '\n'
  }

  function StripNewlines(t: str): str {
    if t == [] then []
    else if IsNewline(t[0]) then StripNewlines(t[1..])
    else [t[0]] + StripNewlines(t[1..])
  }

  function EncodedLen(n: nat): nat {
    n / 3 * 4 + (n % 3 * 8 + 5) / 6
  }

  function Encode(x: str): str {
    if |x| == 0 then []
    else
      var a := x[0] as int;
      if |x| == 1 then [Digit(a / 4), Digit(a % 4 * 16)]
      else
        var b := x[1] as int;
        if |x| == 2 then [Digit(a / 4), Digit(a % 4 * 16 + b / 16), Digit(b % 16 * 4)]
        else
          var c := x[2] as int;
          [Digit(a / 4), Digit(a % 4 * 16 + b / 16), Digit(b % 16 * 4 + c / 64), Digit(c % 64)] + Encode(x[3..])
  }

  /** What a full or final quantum decodes to; strict mode wants its unused low bits to be zero. */
  function DecodeQuantum(q: seq<sextet>): (r: Option<str>)
    requires |q| <= 4
    ensures |q| == 4 ==> r.Some?
    ensures r.Some? ==> |r.value| == |q| * 3 / 4
  {
    if |q| == 0 then Some([])
    else if |q| == 1 then None
    else
      var p0: int, p1: int := q[0], q[1];
      if |q| == 2 then
        if p1 % 16 == 0 then Some([Byte(p0 * 4 + p1 / 16)]) else None
      else
        var p2: int := q[2];
        if |q| == 3 then
          if p2 % 4 == 0 then Some([Byte(p0 * 4 + p1 / 16), Byte(p1 % 16 * 16 + p2 / 4)]) else None
        else
          Some([Byte(p0 * 4 + p1 / 16), Byte(p1 % 16 * 16 + p2 / 4), Byte(p2 % 4 * 64 + q[3])])
  }

  /** The decoder in the middle of its input, with the digits of an unfinished quantum pending. */
  function DecodeFrom(t: str, pending: seq<sextet>): Option<str>
    requires |pending| < 4
    decreases |t|
  {
    if t == [] then DecodeQuantum(pending)
    else if IsNewline(t[0]) then DecodeFrom(t[1..], pending)
    else
      match DigitValue(t[0])
      case None => None
      case Some(v) =>
        var q := pending + [v];
        if |q| < 4 then DecodeFrom(t[1..], q)
        else
          match DecodeFrom(t[1..], [])
          case None => None
          case Some(rest) => Some(DecodeQuantum(q).value + rest)
  }

  function Decode(t: str): Option<str> {
    DecodeFrom(t, [])
  }

  lemma {:induction false} DecodeSkipsNewlines(t: str, pending: seq<sextet>)
    requires |pending| < 4
    ensures DecodeFrom(t, pending) == DecodeFrom(StripNewlines(t), pending)
    decreases |t|
  {
    if t == [] {
    } else if IsNewline(t[0]) {
      DecodeSkipsNewlines(t[1..], pending);
    } else {
      var s := StripNewlines(t);
      assert s[1..] == StripNewlines(t[1..]);
      if DigitValue(t[0]).Some? {
        var q := pending + [DigitValue(t[0]).value];
        DecodeSkipsNewlines(t[1..], if |q| < 4 then q else []);
      }
    }
  }

  lemma {:induction false} StripProperties(t: str)
    ensures |StripNewlines(t)| <= |t|
    ensures |StripNewlines(t)| == |t| <==> StripNewlines(t) == t
    ensures (forall c | c in t :: !IsNewline(c)) ==> StripNewlines(t) == t
    ensures forall c | c in StripNewlines(t) :: !IsNewline(c)
  {
    if t != [] {
      StripProperties(t[1..]);
      assert t == [t[0]] + t[1..];
    }
  }

  lemma {:induction false} EncodeShape(x: str)
    ensures |Encode(x)| == EncodedLen(|x|)
    ensures StripNewlines(Encode(x)) == Encode(x)
    decreases |x|
  {
    var e := Encode(x);
    if |x| > 3 {
      EncodeShape(x[3..]);
    }
    forall c | c in e ensures !IsNewline(c) {
      var k :| 0 <= k < |e| && e[k] == c;
      if |x| >= 3 && k >= 4 {
        assert e[k] == Encode(x[3..])[k - 4];
        StripProperties(Encode(x[3..]));
        assert c in StripNewlines(Encode(x[3..]));
      }
    }
    StripProperties(e);
  }

  /** One digit joins the pending ones as long as they do not fill a quantum. */
  lemma DecodeDigit(t: str, pending: seq<sextet>)
    requires t != [] && !IsNewline(t[0]) && |pending| < 3
    ensures DecodeFrom(t, pending) ==
            if DigitValue(t[0]).None? then None else DecodeFrom(t[1..], pending + [DigitValue(t[0]).value])
  {
    hide DigitValue, DecodeQuantum, IsNewline;
  }

  lemma DecodeLastDigit(t: str, pending: seq<sextet>)
    requires t != [] && !IsNewline(t[0]) && |pending| == 3
    ensures DecodeFrom(t, pending) ==
            if DigitValue(t[0]).None? then None
            else
              match DecodeFrom(t[1..], [])
              case None => None
              case Some(rest) => Some(DecodeQuantum(pending + [DigitValue(t[0]).value]).value + rest)
  {
    hide DigitValue, DecodeQuantum, IsNewline;
  }

  /** Four digits at the front are one full quantum. */
  lemma DecodeFour(t: str)
    requires |t| >= 4 && forall k | 0 <= k < 4 :: !IsNewline(t[k])
    ensures DecodeFrom(t, []) ==
            if exists k | 0 <= k < 4 :: DigitValue(t[k]).None? then None
            else
              match DecodeFrom(t[4..], [])
              case None => None
              case Some(rest) =>
                Some(DecodeQuantum([DigitValue(t[0]).value, DigitValue(t[1]).value, DigitValue(t[2]).value,
                                    DigitValue(t[3]).value]).value + rest)
  {
    hide DigitValue, DecodeQuantum, DecodeFrom, IsNewline;
    assert t[1..][1..] == t[2..] && t[2..][1..] == t[3..] && t[3..][1..] == t[4..];
    DecodeDigit(t, []);
    if DigitValue(t[0]).Some? {
      var q1 := [DigitValue(t[0]).value];
      assert [] + q1 == q1;
      DecodeDigit(t[1..], q1);
      if DigitValue(t[1]).Some? {
        var q2 := q1 + [DigitValue(t[1]).value];
        DecodeDigit(t[2..], q2);
        if DigitValue(t[2]).Some? {
          var q3 := q2 + [DigitValue(t[2]).value];
          DecodeLastDigit(t[3..], q3);
          if DigitValue(t[3]).Some? {
            assert q3 + [DigitValue(t[3]).value] ==
              [DigitValue(t[0]).value, DigitValue(t[1]).value, DigitValue(t[2]).value, DigitValue(t[3]).value];
          }
        }
      }
    }
  }

  /** Digits that do not fill a quantum are the final one. */
  lemma {:induction false} DecodeRest(t: str, pending: seq<sextet>)
    requires |pending| + |t| < 4 && forall k | 0 <= k < |t| :: !IsNewline(t[k])
    ensures DecodeFrom(t, pending) == if AllDigits(t) then DecodeQuantum(pending + DigitsOf(t)) else None
    decreases |t|
  {
    hide DigitValue, DecodeQuantum, IsNewline;
    if t == [] {
      assert pending + DigitsOf(t) == pending;
    } else {
      DecodeDigit(t, pending);
      assert AllDigits(t) <==> DigitValue(t[0]).Some? && AllDigits(t[1..]) by {
        assert forall k | 0 <= k < |t| :: t[k] == if k == 0 then t[0] else t[1..][k - 1];
      }
      if DigitValue(t[0]).Some? {
        var q := pending + [DigitValue(t[0]).value];
        DecodeRest(t[1..], q);
        if AllDigits(t) {
          assert q + DigitsOf(t[1..]) == pending + DigitsOf(t);
        }
      }
    }
  }

  lemma DecodeTail(t: str)
    requires |t| < 4 && forall k | 0 <= k < |t| :: !IsNewline(t[k])
    ensures DecodeFrom(t, []) == if AllDigits(t) then DecodeQuantum(DigitsOf(t)) else None
  {
    DecodeRest(t, []);
    if AllDigits(t) {
      assert [] + DigitsOf(t) == DigitsOf(t);
    }
  }

  /** Decoding text without newlines inverts encoding, and nothing else decodes. */
  lemma {:induction false} DecodeClean(t: str, x: str)
    requires StripNewlines(t) == t
    ensures Decode(t) == Some(x) <==> t == Encode(x)
    decreases |t|
  {
    hide DigitValue, DecodeQuantum, Digit;
    StripProperties(t);
    if |t| >= 4 {
      DecodeFour(t);
      assert forall c | c in t[4..] :: c in t;
      StripProperties(t[4..]);
      if t == Encode(x) {
        EncodeShape(x);
        forall k | 0 <= k < 4 ensures DigitValue(t[k]).Some? { DigitValueOfEncode(x, k); }
        assert t[4..] == Encode(x[3..]);
        DecodeClean(t[4..], x[3..]);
        QuantumOfThree(x);
        assert x == x[..3] + x[3..];
      }
      if Decode(t) == Some(x) {
        DecodeClean(t[4..], x[3..]);
        forall k | 0 <= k < 4 ensures t[k] == Digit(DigitValue(t[k]).value) { DigitValueRoundTrip(t[k]); }
        ThreeOfQuantum(x, DigitValue(t[0]).value, DigitValue(t[1]).value, DigitValue(t[2]).value,
                       DigitValue(t[3]).value);
        assert t[..4] == [t[0], t[1], t[2], t[3]];
        assert t == t[..4] + t[4..];
      }
    } else {
      DecodeTail(t);
      TailQuantum(t, x);
    }
  }

  lemma DigitValueOfEncode(x: str, k: nat)
    requires k < |Encode(x)| && k < 4
    ensures DigitValue(Encode(x)[k]).Some?
  {
  }

  /** Regrouping three bytes as four sextets, and back. */
  lemma Regroup(a: int, b: int, c: int)
    requires 0 <= a < 256 && 0 <= b < 256 && 0 <= c < 256
    ensures var p, q, r, s := a / 4, a % 4 * 16 + b / 16, b % 16 * 4 + c / 64, c % 64;
            && 0 <= p < 64 && 0 <= q < 64 && 0 <= r < 64 && 0 <= s < 64
            && p * 4 + q / 16 == a && q % 16 * 16 + r / 4 == b && r % 4 * 64 + s == c
  {
  }

  lemma RegroupBack(p: int, q: int, r: int, s: int)
    requires 0 <= p < 64 && 0 <= q < 64 && 0 <= r < 64 && 0 <= s < 64
    ensures var a, b, c := p * 4 + q / 16, q % 16 * 16 + r / 4, r % 4 * 64 + s;
            && 0 <= a < 256 && 0 <= b < 256 && 0 <= c < 256
            && a / 4 == p && a % 4 * 16 + b / 16 == q && b % 16 * 4 + c / 64 == r && c % 64 == s
  {
  }

  lemma QuantumOfThree(x: str)
    requires |x| >= 3
    ensures |Encode(x)| >= 4 && forall k | 0 <= k < 4 :: DigitValue(Encode(x)[k]).Some?
    ensures var e := Encode(x);
            DecodeQuantum([DigitValue(e[0]).value, DigitValue(e[1]).value, DigitValue(e[2]).value,
                           DigitValue(e[3]).value])
            == Some(x[..3])
  {
    hide Digit, DigitValue;
    var a, b, c := x[0] as int, x[1] as int, x[2] as int;
    Regroup(a, b, c);
    var e := Encode(x);
    DigitRoundTrip(a / 4);
    DigitRoundTrip(a % 4 * 16 + b / 16);
    DigitRoundTrip(b % 16 * 4 + c / 64);
    DigitRoundTrip(c % 64);
    assert [Byte(a), Byte(b), Byte(c)] == x[..3];
  }

  lemma QuantumBytes(p: sextet, q: sextet, r: sextet, s: sextet)
    ensures var y := DecodeQuantum([p, q, r, s]).value;
            && y[0] as int == p * 4 + q / 16 && y[1] as int == q % 16 * 16 + r / 4 && y[2] as int == r % 4 * 64 + s
  {
  }

  lemma ThreeOfQuantum(x: str, p: sextet, q: sextet, r: sextet, s: sextet)
    requires |x| >= 3
    requires DecodeQuantum([p, q, r, s]) == Some(x[..3])
    ensures Encode(x) == [Digit(p), Digit(q), Digit(r), Digit(s)] + Encode(x[3..])
  {
    hide Encode, Digit, DecodeQuantum;
    QuantumBytes(p, q, r, s);
    EncodeHead(x, p, q, r, s);
  }

  lemma EncodeHead(x: str, p: sextet, q: sextet, r: sextet, s: sextet)
    requires |x| >= 3
    requires x[0] as int == p * 4 + q / 16 && x[1] as int == q % 16 * 16 + r / 4 && x[2] as int == r % 4 * 64 + s
    ensures Encode(x) == [Digit(p), Digit(q), Digit(r), Digit(s)] + Encode(x[3..])
  {
    hide Digit, Encode;
    RegroupBack(p, q, r, s);
    EncodeThree(x);
  }

  lemma EncodeThree(x: str)
    requires |x| >= 3
    ensures var a, b, c := x[0] as int, x[1] as int, x[2] as int;
            Encode(x) == [Digit(a / 4), Digit(a % 4 * 16 + b / 16), Digit(b % 16 * 4 + c / 64), Digit(c % 64)]
                         + Encode(x[3..])
  {
    hide Digit;
  }

  lemma TailBytes(a: byte, b: byte)
    ensures DecodeQuantum([a as int / 4, a as int % 4 * 16]) == Some([a])
    ensures DecodeQuantum([a as int / 4, a as int % 4 * 16 + b as int / 16, b as int % 16 * 4]) == Some([a, b])
  {
    Regroup(a as int, b as int, 0);
  }

  lemma TailDigits(x: str) returns (q: seq<sextet>)
    requires |x| < 3
    ensures |q| < 4 && Encode(x) == seq(|q|, k requires 0 <= k < |q| => Digit(q[k]))
    ensures DecodeQuantum(q) == Some(x)
  {
    if |x| == 0 {
      q := [];
    } else if |x| == 1 {
      TailBytes(x[0], x[0]);
      q := [x[0] as int / 4, x[0] as int % 4 * 16];
      assert x == [x[0]];
    } else {
      TailBytes(x[0], x[1]);
      q := [x[0] as int / 4, x[0] as int % 4 * 16 + x[1] as int / 16, x[1] as int % 16 * 4];
      assert x == [x[0], x[1]];
    }
  }

  lemma EncodeTail(t: str, x: str)
    requires t == Encode(x) && |x| < 3
    ensures |t| < 4 && AllDigits(t)
    ensures DecodeQuantum(DigitsOf(t)) == Some(x)
  {
    var q := TailDigits(x);
    forall k | 0 <= k < |t| ensures DigitValue(t[k]) == Some(q[k]) {
      DigitRoundTrip(q[k]);
    }
    assert q == DigitsOf(t);
  }

  lemma TailEncodes(t: str, x: str, q: seq<sextet>)
    requires |t| == |q| < 4 && forall k | 0 <= k < |t| :: DigitValue(t[k]) == Some(q[k])
    requires DecodeQuantum(q) == Some(x)
    ensures t == Encode(x)
  {
    if |t| >= 2 {
      RegroupBack(q[0], q[1], if |t| == 3 then q[2] else 0, 0);
      DigitValueRoundTrip(t[0]);
      DigitValueRoundTrip(t[1]);
      assert t[0] == Digit(q[0]) && t[1] == Digit(q[1]);
      if |t| == 3 {
        DigitValueRoundTrip(t[2]);
        assert t == [Digit(q[0]), Digit(q[1]), Digit(q[2])];
      } else {
        assert t == [Digit(q[0]), Digit(q[1])];
      }
    }
  }

  /** The final quantum: an unfinished group is padded with zero bits. */
  lemma TailQuantum(t: str, x: str)
    requires |t| < 4 && forall k | 0 <= k < |t| :: !IsNewline(t[k])
    ensures (if AllDigits(t) then DecodeQuantum(DigitsOf(t)) else None) == Some(x) <==> t == Encode(x)
  {
    if t == Encode(x) {
      EncodeShape(x);
      EncodeTail(t, x);
    }
    if AllDigits(t) {
      var q := DigitsOf(t);
      if DecodeQuantum(q) == Some(x) {
        TailEncodes(t, x, q);
      }
    }
  }

  /** The exact language of the strict decoder. */
  lemma DecodeExact(t: str, x: str)
    ensures Decode(t) == Some(x) <==> StripNewlines(t) == Encode(x)
  {
    DecodeSkipsNewlines(t, []);
    StripProperties(t);
    StripProperties(StripNewlines(t));
    DecodeClean(StripNewlines(t), x);
  }

  lemma DecodeEncode(x: str)
    ensures Decode(Encode(x)) == Some(x)
  {
    EncodeShape(x);
    DecodeExact(Encode(x), x);
  }

  /** Text of exactly the encoded length has one spelling: the length check is what shuts out newlines. */
  lemma Canonical(t: str, x: str)
    requires Decode(t) == Some(x)
    ensures EncodedLen(|x|) <= |t|
    ensures |t| == EncodedLen(|x|) <==> t == Encode(x)
  {
    DecodeExact(t, x);
    EncodeShape(x);
    StripProperties(t);
  }

  // ---- The digits, one by one ----

  const UPPER: string := "ABCDEFGHIJKLMNOPQRSTUVWXYZ"
  const LOWER: string := "abcdefghijklmnopqrstuvwxyz"
  const DIGITS: string := "0123456789"

  /** The alphabet of section 5 of RFC 4648. */
  lemma DigitExactly(n: sextet)
    ensures Digit(n) as char == (UPPER + LOWER + DIGITS + "-_")[n]
  {
    assert forall k | 0 <= k < 26 :: UPPER[k] as int == 'A' as int + k && LOWER[k] as int == 'a' as int + k;
    assert forall k | 0 <= k < 10 :: DIGITS[k] as int == '0' as int + k;
  }

  function ByteAt(x: str, i: nat): (n: int)
    ensures 0 <= n < 256
  {
    if i < |x| then x[i] as int else 0
  }

  /** Six bits out of two neighbouring bytes, leaving so many bits at their end. */
  function Window(a: int, b: int, after: int): (n: sextet) {
    (a * 256 + b) / (match after case 10 => 1024 case 4 => 16 case 6 => 64 case _ => 256) % 64
  }

  /** The six bits of x that begin at bit 6k, with zeros after its end. */
  function SixBits(x: str, k: nat): (n: sextet) {
    var i := 6 * k / 8;
    Window(ByteAt(x, i), ByteAt(x, i + 1), 10 - 6 * k % 8)
  }

  /** Encoding writes the bits of its input six at a time. */
  lemma {:induction false} EncodeByBits(x: str, k: nat)
    requires k < EncodedLen(|x|)
    ensures |Encode(x)| == EncodedLen(|x|) && Encode(x)[k] == Digit(SixBits(x, k))
    decreases |x|
  {
    EncodeShape(x);
    if |x| >= 3 && k >= 4 {
      EncodeByBits(x[3..], k - 4);
      SixBitsLater(x, k);
    } else {
      FirstBits(x, k);
    }
  }

  lemma SixBitsLater(x: str, k: nat)
    requires |x| >= 3 && k >= 4
    ensures SixBits(x, k) == SixBits(x[3..], k - 4)
  {
    hide Window;
    assert 6 * k / 8 == 6 * (k - 4) / 8 + 3 && 6 * k % 8 == 6 * (k - 4) % 8;
    assert forall i: nat :: ByteAt(x, i + 3) == ByteAt(x[3..], i);
  }

  lemma Windows(a: int, b: int)
    requires 0 <= a < 256 && 0 <= b < 256
    ensures Window(a, b, 10) == a / 4 && Window(a, b, 4) == a % 4 * 16 + b / 16
    ensures Window(a, b, 6) == a % 16 * 4 + b / 64 && Window(a, b, 8) == a % 64
  {
    hide Window;
    assert Window(a, b, 10) == a / 4 by { WindowAfter10(a / 4, a % 4, b); }
    assert Window(a, b, 4) == a % 4 * 16 + b / 16 by { WindowAfter4(a / 4, a % 4, b / 16, b % 16); }
    assert Window(a, b, 6) == a % 16 * 4 + b / 64 by { WindowAfter6(a / 16, a % 16, b / 64, b % 64); }
    assert Window(a, b, 8) == a % 64 by { WindowAfter8(a, b); }
  }

  lemma WindowAfter10(p: int, q: int, b: int)
    requires 0 <= p < 64 && 0 <= q < 4 && 0 <= b < 256
    ensures Window(4 * p + q, b, 10) == p
  {
    Cut((4 * p + q) * 256 + b, 1024, p, q * 256 + b);
  }

  lemma WindowAfter4(p: int, q: int, r: int, t: int)
    requires 0 <= p < 64 && 0 <= q < 4 && 0 <= r < 16 && 0 <= t < 16
    ensures Window(4 * p + q, 16 * r + t, 4) == q * 16 + r
  {
    Cut((4 * p + q) * 256 + 16 * r + t, 16, p * 64 + q * 16 + r, t);
    Cut(p * 64 + q * 16 + r, 64, p, q * 16 + r);
  }

  lemma WindowAfter6(p: int, q: int, r: int, t: int)
    requires 0 <= p < 16 && 0 <= q < 16 && 0 <= r < 4 && 0 <= t < 64
    ensures Window(16 * p + q, 64 * r + t, 6) == q * 4 + r
  {
    Cut((16 * p + q) * 256 + 64 * r + t, 64, p * 64 + q * 4 + r, t);
    Cut(p * 64 + q * 4 + r, 64, p, q * 4 + r);
  }

  lemma WindowAfter8(a: int, b: int)
    requires 0 <= a < 256 && 0 <= b < 256
    ensures Window(a, b, 8) == a % 64
  {
    Cut(a * 256 + b, 256, a, b);
  }

  lemma Cut(n: int, unit: int, quotient: int, rest: int)
    requires unit in {16, 64, 256, 1024} && n == quotient * unit + rest && 0 <= rest < unit
    ensures n / unit == quotient && n % unit == rest
  {
    if unit == 16 {
    } else if unit == 64 {
    } else if unit == 256 {
    }
  }

  lemma FirstDigits(x: str)
    requires x != []
    ensures var a, b, c, e := ByteAt(x, 0), ByteAt(x, 1), ByteAt(x, 2), Encode(x);
            && |e| >= 2 && e[0] == Digit(a / 4) && e[1] == Digit(a % 4 * 16 + b / 16)
            && (|x| >= 2 ==> |e| >= 3 && e[2] == Digit(b % 16 * 4 + c / 64))
            && (|x| >= 3 ==> |e| >= 4 && e[3] == Digit(c % 64))
  {
    hide Digit;
  }

  lemma FirstSixBits(x: str)
    ensures var a, b, c := ByteAt(x, 0), ByteAt(x, 1), ByteAt(x, 2);
            && SixBits(x, 0) == a / 4 && SixBits(x, 1) == a % 4 * 16 + b / 16
            && SixBits(x, 2) == b % 16 * 4 + c / 64 && SixBits(x, 3) == c % 64
  {
    hide ByteAt, Window;
    Windows(ByteAt(x, 0), ByteAt(x, 1));
    Windows(ByteAt(x, 1), ByteAt(x, 2));
    Windows(ByteAt(x, 2), ByteAt(x, 3));
  }

  lemma FirstBits(x: str, k: nat)
    requires k < 4 && k < EncodedLen(|x|)
    ensures k < |Encode(x)| && Encode(x)[k] == Digit(SixBits(x, k))
  {
    hide Digit, Encode, ByteAt, SixBits;
    FirstDigits(x);
    FirstSixBits(x);
  }
}
