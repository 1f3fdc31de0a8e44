/** Go strings and byte slices, and the optional values that stand for "value or error". */
module Bytes {

  /** One byte of a Go string. Text literals can then be written as such. */
  type byte = c: char | c as int < 256

  type str = seq<byte>

  datatype Option<+T> = None | Some(value: T)

  function Byte(n: int): (c: byte)
    requires 0 <= n < 256
  {
    n as char
  }

  type nibble = n: int | 0 <= n < 16

  function HexValue(c: byte): Option<nibble> {
    if '0' <= c <= '9' then Some(c as int - '0' as int)
    else if 'a' <= c <= 'f' then Some(c as int - 'a' as int + 10)
    else if 'A' <= c <= 'F' then Some(c as int - 'A' as int + 10)
    else None
  }

  predicate NoDuplicates<T(==)>(s: seq<T>) {
    forall i, j | 0 <= i < j < |s| :: s[i] != s[j]
  }

  /** Two orders of the same elements: what is first in one stands somewhere in the other, and can be taken out. */
  lemma TakeOut<T(!new)>(a: seq<T>, b: seq<T>) returns (j: nat)
    requires multiset(a) == multiset(b) && a != []
    ensures |a| == |b| && j < |b| && b[j] == a[0]
    ensures multiset(a[1..]) == multiset(b[..j] + b[j + 1..])
  {
    assert |multiset(a)| == |a| && |multiset(b)| == |b|;
    assert a[0] in multiset(b);
    j :| 0 <= j < |b| && b[j] == a[0];
    assert a == [a[0]] + a[1..];
    assert b == b[..j] + ([b[j]] + b[j + 1..]);
    var rest := multiset(b[..j]) + multiset(b[j + 1..]);
    assert multiset(b[..j] + b[j + 1..]) == rest;
    assert multiset(a) == multiset{a[0]} + multiset(a[1..]);
    assert multiset(b) == multiset(b[..j]) + (multiset{b[j]} + multiset(b[j + 1..]));
    forall x ensures multiset(a[1..])[x] == rest[x] {
      assert multiset(a)[x] == multiset{a[0]}[x] + multiset(a[1..])[x];
      assert multiset(b)[x] == multiset{a[0]}[x] + rest[x];
    }
  }

  lemma Associative<T>(a: seq<T>, b: seq<T>, c: seq<T>)
    ensures (a + b) + c == a + (b + c)
  {
  }

  predicate Ascii(s: str) {
    forall i | 0 <= i < |s| :: s[i] as int < 0x80
  }

  /** Lower case of ASCII letters. */
  function LowerCase(s: str): (t: str)
    ensures |t| == |s|
  {
    seq(|s|, i requires 0 <= i < |s| => if 'A' <= s[i] <= 'Z' then Byte(s[i] as int + 32) else s[i])
  }

  /** strings.ToUpper on ASCII text, which HTTP methods are. */
  function UpperCase(s: str): (t: str)
    ensures |t| == |s|
  {
    seq(|s|, i requires 0 <= i < |s| => if 'a' <= s[i] <= 'z' then Byte(s[i] as int - 32) else s[i])
  }

  /** Go's strings.Join. */
  function Join(parts: seq<str>, separator: str): str {
    if |parts| == 0 then []
    else if |parts| == 1 then parts[0]
    else parts[0] + separator + Join(parts[1..], separator)
  }

  /** The sum of the lengths of the parts. */
  function TotalLength(parts: seq<str>): nat {
    if parts == [] then 0 else |parts[0]| + TotalLength(parts[1..])
  }

  lemma {:induction false} JoinLength(parts: seq<str>, separator: str)
    ensures parts != [] ==> |Join(parts, separator)| == TotalLength(parts) + (|parts| - 1) * |separator|
  {
    if |parts| > 1 {
      JoinLength(parts[1..], separator);
      assert (|parts| - 1) * |separator| == (|parts[1..]| - 1) * |separator| + |separator|;
    } else if |parts| == 1 {
      assert parts[1..] == [];
    }
  }

  /** The first occurrence of a byte, or the length of the string when there is none. */
  function IndexOf(s: str, c: byte): (i: nat)
    ensures i <= |s|
    ensures forall k | 0 <= k < i :: s[k] != c
    ensures i < |s| ==> s[i] == c
  {
    if s == [] || s[0] == c then 0 else 1 + IndexOf(s[1..], c)
  }

  lemma {:induction false} IndexOfPrefix(a: str, c: byte, rest: str)
    requires c !in a
    ensures IndexOf(a + [c] + rest, c) == |a|
  {
    var s := a + [c] + rest;
    assert s[|a|] == c;
    assert forall k | 0 <= k < |a| :: s[k] == a[k];
  }
}
