/**
 Percent-encoding (section 2.1 of RFC 3986) as `encodeURIComponent` and `decodeURIComponent`
 use it, and the form encoding of `URLSearchParams` (section 5 of the WHATWG URL Standard). Strings
 are sequences of Unicode scalar values.
 */
module UrlCoding {
  import opened Basics
  import opened Splitting
  import opened Utf8Coding

  // ---------- percent-encoding ----------

  predicate ComponentKeeps(c: char) {
    Alphanumeric(c) || c in "-_.!~*'()"
  }

  predicate FormKeeps(c: char) {
    Alphanumeric(c) || c in "*-._"
  }

  function HexDigit(n: int): char
    requires 0 <= n < 16
  {
    if n < 10 then '0' + n as char else 'A' + (n - 10) as char
  }

  function HexValue(c: char): Option<int> {
    if '0' <= c <= '9' then Some(c as int - '0' as int)
    else if 'A' <= c <= 'F' then Some(c as int - 'A' as int + 10)
    else if 'a' <= c <= 'f' then Some(c as int - 'a' as int + 10)
    else None
  }

  function PercentByte(b: Byte): string {
    ['%', HexDigit(b / 16), HexDigit(b % 16)]
  }

  function PercentBytes(bytes: seq<Byte>): string
    decreases |bytes|
  {
    if bytes == [] then [] else PercentByte(bytes[0]) + PercentBytes(bytes[1..])
  }

  function EncodeChar(c: char, form: bool): string {
    if form && c == ' ' then "+"
    else if (if form then FormKeeps(c) else ComponentKeeps(c)) then [c]
    else PercentBytes(Utf8(c))
  }

  /** `encodeURIComponent`, or the form encoding of one key or value. */
  function Encode(s: string, form: bool): string
    decreases |s|
  {
    if s == [] then [] else EncodeChar(s[0], form) + Encode(s[1..], form)
  }

  predicate Escape(s: string) {
    |s| >= 3 && s[0] == '%' && HexValue(s[1]).Some? && HexValue(s[2]).Some?
  }

  /** The bytes behind a percent-encoded text; a stray `%` is an error or, in a form, itself. */
  function Unescape(s: string, form: bool): Option<seq<Byte>>
    decreases |s|
  {
    if s == [] then Some([])
    else if Escape(s) then
      match Unescape(s[3..], form)
      case None => None
      case Some(rest) => Some([HexValue(s[1]).value * 16 + HexValue(s[2]).value] + rest)
    else if s[0] == '%' && !form then None
    else
      match Unescape(s[1..], form)
      case None => None
      case Some(rest) => Some((if form && s[0] == '+' then [0x20] else Utf8(s[0])) + rest)
  }

  function Decode(s: string, form: bool): Option<string> {
    match Unescape(s, form)
    case None => None
    case Some(bytes) => FromUtf8(bytes)
  }

  lemma HexRoundTrip(n: int)
    requires 0 <= n < 16
    ensures HexValue(HexDigit(n)) == Some(n)
  {
  }

  lemma UnescapeOne(b: Byte, tail: string, form: bool)
    requires Unescape(tail, form).Some?
    ensures Unescape(PercentByte(b) + tail, form) == Some([b] + Unescape(tail, form).value)
  {
    HexRoundTrip(b / 16);
    HexRoundTrip(b % 16);
    var s := PercentByte(b) + tail;
    assert s[0] == '%' && s[1] == HexDigit(b / 16) && s[2] == HexDigit(b % 16) && s[3..] == tail;
  }

  lemma {:induction false} UnescapePercent(bytes: seq<Byte>, rest: string, form: bool)
    requires Unescape(rest, form).Some?
    ensures Unescape(PercentBytes(bytes) + rest, form) == Some(bytes + Unescape(rest, form).value)
    decreases |bytes|
  {
    if bytes == [] {
      assert PercentBytes(bytes) + rest == rest;
      assert bytes + Unescape(rest, form).value == Unescape(rest, form).value;
    } else {
      var tail, value := PercentBytes(bytes[1..]) + rest, Unescape(rest, form).value;
      UnescapePercent(bytes[1..], rest, form);
      UnescapeOne(bytes[0], tail, form);
      Regroup(PercentByte(bytes[0]), PercentBytes(bytes[1..]), rest);
      Regroup([bytes[0]], bytes[1..], value);
      assert [bytes[0]] + bytes[1..] == bytes;
    }
  }

  /** A character that stands for itself, or the plus sign of a form. */
  lemma UnescapePlain(c: char, tail: string, form: bool)
    requires c != '%' && Unescape(tail, form).Some?
    ensures Unescape([c] + tail, form) ==
            Some((if form && c == '+' then [0x20] else Utf8(c)) + Unescape(tail, form).value)
  {
    assert ([c] + tail)[1..] == tail;
  }

  lemma UnescapeChar(c: char, tail: string, form: bool)
    requires Unescape(tail, form).Some?
    ensures Unescape(EncodeChar(c, form) + tail, form) == Some(Utf8(c) + Unescape(tail, form).value)
  {
    if form && c == ' ' {
      UnescapePlain('+', tail, form);
    } else if if form then FormKeeps(c) else ComponentKeeps(c) {
      UnescapePlain(c, tail, form);
    } else {
      UnescapePercent(Utf8(c), tail, form);
    }
  }

  lemma {:induction false} UnescapeEncoded(s: string, form: bool)
    ensures Unescape(Encode(s, form), form) == Some(Utf8All(s))
    decreases |s|
  {
    if s != [] {
      UnescapeEncoded(s[1..], form);
      UnescapeChar(s[0], Encode(s[1..], form), form);
    }
  }

  /** Decoding undoes encoding, for every string of scalar values. */
  lemma CodingRoundTrip(s: string, form: bool)
    ensures Decode(Encode(s, form), form) == Some(s)
  {
    UnescapeEncoded(s, form);
    Utf8RoundTrip(s);
  }

  /** What can occur in encoded text. */
  predicate EncodedChar(c: char) {
    Alphanumeric(c) || c in "-_.!~*'()%+"
  }

  lemma {:induction false} PercentIsEncoded(bytes: seq<Byte>)
    ensures forall c :: c in PercentBytes(bytes) ==> EncodedChar(c)
    decreases |bytes|
  {
    if bytes != [] {
      PercentIsEncoded(bytes[1..]);
    }
  }

  lemma {:induction false} EncodedIsSafe(s: string, form: bool)
    ensures forall c :: c in Encode(s, form) ==> EncodedChar(c)
    ensures Encode(s, form) == [] <==> s == []
    decreases |s|
  {
    if s != [] {
      PercentIsEncoded(Utf8(s[0]));
      EncodedIsSafe(s[1..], form);
    }
  }

  /** The characters that stand for themselves in a path segment. */
  predicate Unreserved(c: char) {
    'a' <= c <= 'z' || 'A' <= c <= 'Z' || '0' <= c <= '9' || c in {'-', '_', '.', '!', '~', '*', '\'', '(', ')'}
  }

  /** The characters that stand for themselves in a form. */
  predicate FormPlain(c: char) {
    'a' <= c <= 'z' || 'A' <= c <= 'Z' || '0' <= c <= '9' || c in {'*', '-', '.', '_'}
  }

  predicate UpperHex(c: char) {
    '0' <= c <= '9' || 'A' <= c <= 'F'
  }

  /** Every byte as a percent sign and two upper-case hexadecimal digits. */
  predicate Escaped(s: string, bytes: seq<Byte>) {
    |s| == 3 * |bytes| &&
    forall i :: 0 <= i < |bytes| ==> EscapedByte(s[3 * i..3 * i + 3], bytes[i])
  }

  predicate EscapedByte(s: string, b: Byte)
    requires |s| == 3
  {
    s[0] == '%' && UpperHex(s[1]) && UpperHex(s[2]) &&
    HexValue(s[1]).Some? && HexValue(s[2]).Some? && HexValue(s[1]).value * 16 + HexValue(s[2]).value == b
  }

  lemma {:induction false} PercentBytesEscape(bytes: seq<Byte>)
    ensures Escaped(PercentBytes(bytes), bytes)
    decreases |bytes|
  {
    if bytes != [] {
      PercentBytesEscape(bytes[1..]);
      HexRoundTrip(bytes[0] / 16);
      HexRoundTrip(bytes[0] % 16);
      var s, rest := PercentBytes(bytes), PercentBytes(bytes[1..]);
      forall i | 0 <= i < |bytes| ensures EscapedByte(s[3 * i..3 * i + 3], bytes[i]) {
        if i == 0 {
          assert s[0..3] == PercentByte(bytes[0]);
        } else {
          assert s[3 * i..3 * i + 3] == rest[3 * (i - 1)..3 * (i - 1) + 3];
          assert bytes[1..][i - 1] == bytes[i];
        }
      }
    }
  }

  /** How each character is printed, in a path segment and in a form; a text is printed character by character. */
  lemma CharactersPrint(c: char)
    ensures Encode([c], false) == EncodeChar(c, false) && Encode([c], true) == EncodeChar(c, true)
    ensures if Unreserved(c) then EncodeChar(c, false) == [c] else Escaped(EncodeChar(c, false), Utf8(c))
    ensures if c == ' ' then EncodeChar(c, true) == "+"
            else if FormPlain(c) then EncodeChar(c, true) == [c]
            else Escaped(EncodeChar(c, true), Utf8(c))
  {
    PercentBytesEscape(Utf8(c));
    assert [c][1..] == [] && EncodeChar(c, false) + [] == EncodeChar(c, false);
    assert EncodeChar(c, true) + [] == EncodeChar(c, true);
  }

  /** A percent sign that starts no escape stands for itself in a form, and is an error in a path segment. */
  lemma StrayPercent(rest: string)
    requires !Escape("%" + rest)
    ensures Unescape("%" + rest, false) == None
    ensures Unescape("%" + rest, true) ==
            if Unescape(rest, true).None? then None else Some([0x25] + Unescape(rest, true).value)
  {
    assert ("%" + rest)[1..] == rest;
  }

  // ---------- query strings ----------

  type Params = seq<(string, string)>

  function PrintPair(pair: (string, string)): string {
    Encode(pair.0, true) + "=" + Encode(pair.1, true)
  }

  function PrintPairs(params: Params): seq<string> {
    seq(|params|, i requires 0 <= i < |params| => PrintPair(params[i]))
  }

  function PrintParams(params: Params): string {
    if params == [] then "" else JoinWith(PrintPairs(params), '&')
  }

  /** Cut at the first `=`; without one, the whole text is the key. */
  function CutAtEquals(s: string): (string, string)
    decreases |s|
  {
    if s == [] then ([], [])
    else if s[0] == '=' then ([], s[1..])
    else
      var (key, value) := CutAtEquals(s[1..]);
      ([s[0]] + key, value)
  }

  /** Nothing where a text is not well-formed UTF-8, which the platform would repair instead. */
  function ParsePair(s: string): Option<(string, string)> {
    var (key, value) := CutAtEquals(s);
    match (Decode(key, true), Decode(value, true))
    case (Some(k), Some(v)) => Some((k, v))
    case _ => None
  }

  function ParsePairs(parts: seq<string>): Option<Params>
    decreases |parts|
  {
    if parts == [] then Some([])
    else if parts[0] == [] then ParsePairs(parts[1..])
    else
      match (ParsePair(parts[0]), ParsePairs(parts[1..]))
      case (Some(pair), Some(rest)) => Some([pair] + rest)
      case _ => None
  }

  function ParseParams(query: string): Option<Params> {
    ParsePairs(SplitOn(query, '&'))
  }

  lemma {:induction false} CutJoined(key: string, value: string)
    requires '=' !in key
    ensures CutAtEquals(key + "=" + value) == (key, value)
    decreases |key|
  {
    var s := key + "=" + value;
    if key == [] {
      assert s[1..] == value;
    } else {
      assert key[0] in key && forall c :: c in key[1..] ==> c in key;
      assert s[1..] == key[1..] + "=" + value;
      CutJoined(key[1..], value);
      assert key == [key[0]] + key[1..];
    }
  }

  /** A parameter without an equals sign has an empty value. */
  lemma {:induction false} CutWithoutEquals(s: string)
    requires '=' !in s
    ensures CutAtEquals(s) == (s, [])
    decreases |s|
  {
    if s != [] {
      assert s[0] in s && forall c :: c in s[1..] ==> c in s;
      CutWithoutEquals(s[1..]);
      assert s == [s[0]] + s[1..];
    }
  }

  lemma PairRoundTrip(pair: (string, string))
    ensures ParsePair(PrintPair(pair)) == Some(pair) && PrintPair(pair) != []
    ensures forall c :: c in PrintPair(pair) ==> EncodedChar(c) || c == '='
  {
    EncodedIsSafe(pair.0, true);
    EncodedIsSafe(pair.1, true);
    CutJoined(Encode(pair.0, true), Encode(pair.1, true));
    CodingRoundTrip(pair.0, true);
    CodingRoundTrip(pair.1, true);
  }

  lemma {:induction false} PairsRoundTrip(params: Params)
    ensures ParsePairs(PrintPairs(params)) == Some(params)
    decreases |params|
  {
    if params != [] {
      PairRoundTrip(params[0]);
      PairsRoundTrip(params[1..]);
      assert PrintPairs(params)[1..] == PrintPairs(params[1..]);
      assert params == [params[0]] + params[1..];
    }
  }

  lemma PairsHaveNoAmpersand(params: Params)
    ensures Without(PrintPairs(params), '&')
  {
    forall part | part in PrintPairs(params) ensures '&' !in part {
      var i :| 0 <= i < |params| && part == PrintPair(params[i]);
      PairRoundTrip(params[i]);
      assert !EncodedChar('&');
    }
  }

  /** Parsing a printed query gives the parameters back, in order. */
  lemma ParamsRoundTrip(params: Params)
    ensures ParseParams(PrintParams(params)) == Some(params)
  {
    if params != [] {
      PairsHaveNoAmpersand(params);
      SplitUndoesJoin(PrintPairs(params), '&');
      PairsRoundTrip(params);
    }
  }

  /** What can occur in a printed query. */
  lemma {:induction false} PrintedCharacters(params: Params)
    ensures forall c :: c in PrintParams(params) ==> EncodedChar(c) || c == '=' || c == '&'
    decreases |params|
  {
    if params != [] {
      PairRoundTrip(params[0]);
      if |params| > 1 {
        PrintedCharacters(params[1..]);
        assert PrintPairs(params)[1..] == PrintPairs(params[1..]);
      }
    }
  }
}
