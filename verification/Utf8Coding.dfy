/** UTF-8 (RFC 3629). Strings are sequences of Unicode scalar values. */
module Utf8Coding {
  import opened Basics

  type Byte = b: int | 0 <= b < 256

  function Utf8(c: char): seq<Byte> {
    var n := c as int;
    var n1 := n / 64;
    var n2 := n1 / 64;
    if n < 0x80 then [n]
    else if n < 0x800 then [0xC0 + n1, 0x80 + n % 64]
    else if n < 0x1_0000 then [0xE0 + n2, 0x80 + n1 % 64, 0x80 + n % 64]
    else [0xF0 + n2 / 64, 0x80 + n2 % 64, 0x80 + n1 % 64, 0x80 + n % 64]
  }

  function Utf8All(s: string): seq<Byte>
    decreases |s|
  {
    if s == [] then [] else Utf8(s[0]) + Utf8All(s[1..])
  }

  predicate Continues(bytes: seq<Byte>, n: nat) {
    |bytes| > n && forall i :: 1 <= i <= n ==> 0x80 <= bytes[i] < 0xC0
  }

  /** The low six bits of the continuation byte at `i`. */
  function Low(bytes: seq<Byte>, i: nat): int
    requires i < |bytes|
  {
    bytes[i] as int - 0x80
  }

  /** The scalar value at the front and its length; overlong forms and surrogates are errors. */
  function FirstScalar(bytes: seq<Byte>): Option<(int, nat)>
    requires bytes != []
  {
    var b := bytes[0] as int;
    if b < 0x80 then Some((b, 1))
    else if 0xC0 <= b < 0xE0 && Continues(bytes, 1) then
      var n := (b - 0xC0) * 64 + Low(bytes, 1);
      if n < 0x80 then None else Some((n, 2))
    else if 0xE0 <= b < 0xF0 && Continues(bytes, 2) then
      var n := ((b - 0xE0) * 64 + Low(bytes, 1)) * 64 + Low(bytes, 2);
      if n < 0x800 || 0xD800 <= n < 0xE000 then None else Some((n, 3))
    else if 0xF0 <= b < 0xF8 && Continues(bytes, 3) then
      var n := (((b - 0xF0) * 64 + Low(bytes, 1)) * 64 + Low(bytes, 2)) * 64 + Low(bytes, 3);
      if n < 0x1_0000 || n >= 0x11_0000 then None else Some((n, 4))
    else None
  }

  function FromUtf8(bytes: seq<Byte>): Option<string>
    decreases |bytes|
  {
    if bytes == [] then Some([])
    else
      match FirstScalar(bytes)
      case None => None
      case Some((n, length)) =>
        match FromUtf8(bytes[length..])
        case None => None
        case Some(rest) => Some([n as char] + rest)
  }

  lemma FirstOfTwo(c: char, rest: seq<Byte>)
    requires 0x80 <= c as int < 0x800
    ensures FirstScalar(Utf8(c) + rest) == Some((c as int, 2))
  {
    var n := c as int;
    var bytes := Utf8(c) + rest;
    assert bytes[0] == 0xC0 + n / 64 && bytes[1] == 0x80 + n % 64;
  }

  lemma FirstOfThree(c: char, rest: seq<Byte>)
    requires 0x800 <= c as int < 0x1_0000
    ensures FirstScalar(Utf8(c) + rest) == Some((c as int, 3))
  {
    var n := c as int;
    var n1 := n / 64;
    var bytes := Utf8(c) + rest;
    assert bytes[0] == 0xE0 + n1 / 64 && bytes[1] == 0x80 + n1 % 64 && bytes[2] == 0x80 + n % 64;
    assert n1 == 64 * (n1 / 64) + n1 % 64 && n == 64 * n1 + n % 64;
  }

  lemma FirstOfFour(c: char, rest: seq<Byte>)
    requires 0x1_0000 <= c as int
    ensures FirstScalar(Utf8(c) + rest) == Some((c as int, 4))
  {
    var n := c as int;
    var n1 := n / 64;
    var n2 := n1 / 64;
    var bytes := Utf8(c) + rest;
    assert bytes[0] == 0xF0 + n2 / 64 && bytes[1] == 0x80 + n2 % 64;
    assert bytes[2] == 0x80 + n1 % 64 && bytes[3] == 0x80 + n % 64;
    assert n2 == 64 * (n2 / 64) + n2 % 64 && n1 == 64 * n2 + n1 % 64 && n == 64 * n1 + n % 64;
  }

  lemma FirstOfUtf8(c: char, rest: seq<Byte>)
    ensures FirstScalar(Utf8(c) + rest) == Some((c as int, |Utf8(c)|))
  {
    var n := c as int;
    if n < 0x80 {
      assert (Utf8(c) + rest)[0] == n;
    } else if n < 0x800 {
      FirstOfTwo(c, rest);
    } else if n < 0x1_0000 {
      FirstOfThree(c, rest);
    } else {
      FirstOfFour(c, rest);
    }
  }

  lemma FromUtf8Cons(bytes: seq<Byte>, c: char, length: nat, rest: string)
    requires bytes != [] && FirstScalar(bytes) == Some((c as int, length)) && length <= |bytes|
    requires FromUtf8(bytes[length..]) == Some(rest)
    ensures FromUtf8(bytes) == Some([c] + rest)
  {
  }

  lemma {:induction false} Utf8RoundTrip(s: string)
    ensures FromUtf8(Utf8All(s)) == Some(s)
    decreases |s|
  {
    if s != [] {
      var tail := Utf8All(s[1..]);
      FirstOfUtf8(s[0], tail);
      assert (Utf8(s[0]) + tail)[|Utf8(s[0])|..] == tail;
      Utf8RoundTrip(s[1..]);
      FromUtf8Cons(Utf8(s[0]) + tail, s[0], |Utf8(s[0])|, s[1..]);
      assert s == [s[0]] + s[1..];
    }
  }
}
