/**
 * JavaScript's `encodeURIComponent` on strings of Unicode scalar values, and
 * the decoding a server applies to a query parameter, which undoes it.
 */
module UriComponent {
  import opened Optional

  type byte = b: int | 0 <= b < 256

  /** The characters `encodeURIComponent` leaves as they are: ASCII letters and digits and `- _ . ! ~ * ' ( )`. */
  predicate IsUnreserved(c: char) {
    ('A' <= c <= 'Z') || ('a' <= c <= 'z') || ('0' <= c <= '9')
    || c == '-' || c == '_' || c == '.' || c == '!' || c == '~'
    || c == '*' || c == '\'' || c == '(' || c == ')'
  }

  /** The UTF-8 bytes of one scalar value, lead byte first. */
  function Utf8(c: char): (bs: seq<byte>)
    ensures 1 <= |bs| <= 4
  {
    var n := c as int;
    var q1 := n / 64;
    var q2 := q1 / 64;
    var q3 := q2 / 64;
    if n < 0x80 then [n]
    else if n < 0x800 then [0xC0 + q1, 0x80 + n % 64]
    else if n < 0x1_0000 then [0xE0 + q2, 0x80 + q1 % 64, 0x80 + n % 64]
    else [0xF0 + q3, 0x80 + q2 % 64, 0x80 + q1 % 64, 0x80 + n % 64]
  }

  /** The upper-case hexadecimal digit for `d`. */
  function HexDigit(d: nat): char
    requires d < 16
  {
    if d < 10 then ('0' as int + d) as char else ('A' as int + d - 10) as char
  }

  /** `%XY` with upper-case hexadecimal digits. */
  function PercentByte(b: byte): (r: string)
  {
    ['%', HexDigit(b / 16), HexDigit(b % 16)]
  }

  function PercentBytes(bs: seq<byte>): (r: string)
    ensures |r| == 3 * |bs|
  {
    if bs == [] then [] else PercentByte(bs[0]) + PercentBytes(bs[1..])
  }

  function EncodeChar(c: char): (r: string)
    ensures r != []
  {
    if IsUnreserved(c) then [c] else PercentBytes(Utf8(c))
  }

  /** `encodeURIComponent(s)` */
  function Encode(s: string): string
  {
    if s == [] then [] else EncodeChar(s[0]) + Encode(s[1..])
  }

  /** A character that may stand in an encoded component. */
  predicate IsEncodedChar(c: char) {
    IsUnreserved(c) || c == '%'
  }

  /** Every character of `s` may stand in an encoded component. */
  predicate AllEncoded(s: string) {
    forall i :: 0 <= i < |s| ==> IsEncodedChar(s[i])
  }

  lemma AllEncodedConcat(a: string, b: string)
    requires AllEncoded(a) && AllEncoded(b)
    ensures AllEncoded(a + b)
  {
    forall i | 0 <= i < |a + b| ensures IsEncodedChar((a + b)[i]) {
      if i >= |a| { assert (a + b)[i] == b[i - |a|]; }
    }
  }

  lemma PercentByteEncoded(b: byte)
    ensures AllEncoded(PercentByte(b))
  {
    var r := PercentByte(b);
    assert IsUnreserved(r[1]) && IsUnreserved(r[2]);
  }

  lemma {:induction false} PercentBytesEncoded(bs: seq<byte>)
    ensures AllEncoded(PercentBytes(bs))
  {
    if bs != [] {
      PercentBytesEncoded(bs[1..]);
      PercentByteEncoded(bs[0]);
      AllEncodedConcat(PercentByte(bs[0]), PercentBytes(bs[1..]));
    }
  }

  /**
   * Every character of an encoded string is unreserved or `%`, so it never
   * contains a delimiter of a query string (`&`, `=`, `#`, `+`, `?` or a
   * space).
   */
  lemma {:induction false} EncodeIsSafe(s: string)
    ensures AllEncoded(Encode(s))
  {
    if s != [] {
      EncodeIsSafe(s[1..]);
      if !IsUnreserved(s[0]) {
        PercentBytesEncoded(Utf8(s[0]));
      }
      AllEncodedConcat(EncodeChar(s[0]), Encode(s[1..]));
    }
  }

  // ---------------------------------------------------------------------
  // Decoding
  // ---------------------------------------------------------------------

  function HexValue(c: char): Option<nat> {
    if '0' <= c <= '9' then Some(c as int - '0' as int)
    else if 'A' <= c <= 'F' then Some(c as int - 'A' as int + 10)
    else if 'a' <= c <= 'f' then Some(c as int - 'a' as int + 10)
    else None
  }

  /** The byte written as `%XY` at the start of `s`, if there is one. */
  function PercentByteAt(s: string): (r: Option<byte>)
  {
    if |s| >= 3 && s[0] == '%' && HexValue(s[1]).Some? && HexValue(s[2]).Some?
       && HexValue(s[1]).value < 16 && HexValue(s[2]).value < 16
    then Some(HexValue(s[1]).value * 16 + HexValue(s[2]).value)
    else None
  }

  /** The low six bits of the `k`-th escaped byte of `s` when that byte is a UTF-8 continuation byte. */
  function ContinuationAt(s: string, k: nat): (r: Option<nat>)
    ensures r.Some? ==> r.value < 64
  {
    if |s| < 3 * k + 3 then None
    else match PercentByteAt(s[3 * k..])
      case Some(b) => if 0x80 <= b < 0xC0 then Some(b - 0x80) else None
      case None => None
  }

  /**
   * Decodes the escaped UTF-8 sequence at the start of `s` into one
   * character and says how many characters of `s` it took. Truncated,
   * overlong and surrogate sequences are rejected.
   */
  function DecodeEscape(s: string): (r: Option<(char, nat)>)
    ensures r.Some? ==> 3 <= r.value.1 <= |s|
  {
    match PercentByteAt(s)
    case None => None
    case Some(b0) =>
      if b0 < 0x80 then Some((b0 as char, 3))
      else if 0xC0 <= b0 < 0xE0 then
        var x1 := ContinuationAt(s, 1);
        if x1.None? then None
        else
          var n := (b0 - 0xC0) * 64 + x1.value;
          if 0x80 <= n then Some((n as char, 6)) else None
      else if 0xE0 <= b0 < 0xF0 then
        var x1, x2 := ContinuationAt(s, 1), ContinuationAt(s, 2);
        if x1.None? || x2.None? then None
        else
          var n := (b0 - 0xE0) * 4096 + x1.value * 64 + x2.value;
          if 0x800 <= n && !(0xD800 <= n < 0xE000) then Some((n as char, 9)) else None
      else if 0xF0 <= b0 < 0xF8 then
        var x1, x2, x3 := ContinuationAt(s, 1), ContinuationAt(s, 2), ContinuationAt(s, 3);
        if x1.None? || x2.None? || x3.None? then None
        else
          var n := (b0 - 0xF0) * 0x4_0000 + x1.value * 4096 + x2.value * 64 + x3.value;
          if 0x1_0000 <= n < 0x11_0000 then Some((n as char, 12)) else None
      else None
  }

  /** `decodeURIComponent(s)`, with `None` where it would throw. */
  function Decode(s: string): Option<string>
    decreases |s|
  {
    if s == [] then Some([])
    else if s[0] != '%' then
      match Decode(s[1..])
      case Some(t) => Some([s[0]] + t)
      case None => None
    else
      match DecodeEscape(s)
      case None => None
      case Some(ck) =>
        match Decode(s[ck.1..])
        case Some(t) => Some([ck.0] + t)
        case None => None
  }

  // ---------------------------------------------------------------------
  // Round trip
  // ---------------------------------------------------------------------

  lemma HexDigitValue(d: nat)
    requires d < 16
    ensures HexValue(HexDigit(d)) == Some(d)
  {
  }

  lemma PercentByteReadBack(b: byte, rest: string)
    ensures PercentByteAt(PercentByte(b) + rest) == Some(b)
  {
    var t := PercentByte(b) + rest;
    HexDigitValue(b / 16);
    HexDigitValue(b % 16);
    assert t[0] == '%' && t[1] == HexDigit(b / 16) && t[2] == HexDigit(b % 16);
  }

  lemma SkipEscape(x: string, u: string, k: nat)
    requires |x| == 3 && 0 < k && 3 * k <= |x| + |u|
    ensures (x + u)[3 * k..] == u[3 * (k - 1)..]
  {
    var j := 3 * (k - 1);
    assert (x + u)[j + 3..] == u[j..];
  }

  /** The `k`-th escape of an escaped byte string reads back as the `k`-th byte, whatever follows it. */
  lemma {:induction false} PercentBytesReadBack(bs: seq<byte>, rest: string, k: nat)
    requires k < |bs|
    ensures PercentByteAt((PercentBytes(bs) + rest)[3 * k..]) == Some(bs[k])
  {
    var u := PercentBytes(bs[1..]) + rest;
    assert PercentBytes(bs) + rest == PercentByte(bs[0]) + u;
    if k == 0 {
      PercentByteReadBack(bs[0], u);
    } else {
      PercentBytesReadBack(bs[1..], rest, k - 1);
      SkipEscape(PercentByte(bs[0]), u, k);
    }
  }

  lemma ContinuationReadBack(bs: seq<byte>, rest: string, k: nat)
    requires 0 < k < |bs| && 0x80 <= bs[k] < 0xC0
    ensures ContinuationAt(PercentBytes(bs) + rest, k) == Some(bs[k] - 0x80)
  {
    var s := PercentBytes(bs) + rest;
    assert 3 * k + 3 <= |s|;
    PercentBytesReadBack(bs, rest, k);
    ContinuationOf(s, k, bs[k]);
  }

  lemma ContinuationOf(s: string, k: nat, b: byte)
    requires 3 * k + 3 <= |s| && PercentByteAt(s[3 * k..]) == Some(b) && 0x80 <= b < 0xC0
    ensures ContinuationAt(s, k) == Some(b - 0x80)
  {
  }

  /** An escaped character decodes back to itself, whatever follows it. */
  lemma EscapeDecodes(c: char, rest: string)
    requires !IsUnreserved(c)
    ensures DecodeEscape(EncodeChar(c) + rest) == Some((c, |EncodeChar(c)|))
  {
    var n := c as int;
    assert EncodeChar(c) == PercentBytes(Utf8(c));
    if n < 0x80 {
      OneByteDecodes(c, rest);
    } else if n < 0x800 {
      TwoByteDecodes(c, rest);
    } else if n < 0x1_0000 {
      ThreeByteDecodes(c, rest);
    } else {
      FourByteDecodes(c, rest);
    }
  }

  lemma OneByteDecodes(c: char, rest: string)
    requires c as int < 0x80
    ensures DecodeEscape(PercentBytes(Utf8(c)) + rest) == Some((c, 3))
  {
    PercentBytesReadBack(Utf8(c), rest, 0);
  }

  lemma TwoByteDecodes(c: char, rest: string)
    requires 0x80 <= c as int < 0x800
    ensures DecodeEscape(PercentBytes(Utf8(c)) + rest) == Some((c, 6))
  {
    Utf8TwoBytes(c);
    TwoByteEscape(Utf8(c), rest, c);
  }

  lemma ThreeByteDecodes(c: char, rest: string)
    requires 0x800 <= c as int < 0x1_0000
    ensures DecodeEscape(PercentBytes(Utf8(c)) + rest) == Some((c, 9))
  {
    Utf8ThreeBytes(c);
    ThreeByteEscape(Utf8(c), rest, c);
  }

  lemma FourByteDecodes(c: char, rest: string)
    requires 0x1_0000 <= c as int
    ensures DecodeEscape(PercentBytes(Utf8(c)) + rest) == Some((c, 12))
  {
    Utf8FourBytes(c);
    FourByteEscape(Utf8(c), rest, c);
  }

  /** Two escaped bytes in UTF-8's two-byte form decode to the character they encode. */
  lemma TwoByteEscape(bs: seq<byte>, rest: string, c: char)
    requires |bs| == 2 && 0xC0 <= bs[0] < 0xE0 && 0x80 <= bs[1] < 0xC0
    requires 0x80 <= c as int && (bs[0] - 0xC0) as int * 64 + (bs[1] - 0x80) == c as int
    ensures DecodeEscape(PercentBytes(bs) + rest) == Some((c, 6))
  {
    FirstEscapeReadBack(bs, rest);
    ContinuationReadBack(bs, rest, 1);
    DecodeTwo(PercentBytes(bs) + rest, bs[0], bs[1] - 0x80);
  }

  /** Three escaped bytes in UTF-8's three-byte form decode to the character they encode. */
  lemma ThreeByteEscape(bs: seq<byte>, rest: string, c: char)
    requires |bs| == 3 && 0xE0 <= bs[0] < 0xF0 && 0x80 <= bs[1] < 0xC0 && 0x80 <= bs[2] < 0xC0
    requires 0x800 <= c as int
    requires (bs[0] - 0xE0) as int * 4096 + (bs[1] - 0x80) as int * 64 + (bs[2] - 0x80) == c as int
    ensures DecodeEscape(PercentBytes(bs) + rest) == Some((c, 9))
  {
    FirstEscapeReadBack(bs, rest);
    ContinuationReadBack(bs, rest, 1);
    ContinuationReadBack(bs, rest, 2);
    DecodeThree(PercentBytes(bs) + rest, bs[0], bs[1] - 0x80, bs[2] - 0x80);
  }

  /** Four escaped bytes in UTF-8's four-byte form decode to the character they encode. */
  lemma FourByteEscape(bs: seq<byte>, rest: string, c: char)
    requires |bs| == 4 && 0xF0 <= bs[0] < 0xF8 && 0x80 <= bs[1] < 0xC0 && 0x80 <= bs[2] < 0xC0 && 0x80 <= bs[3] < 0xC0
    requires 0x1_0000 <= c as int
    requires (bs[0] - 0xF0) as int * 0x4_0000 + (bs[1] - 0x80) as int * 4096 + (bs[2] - 0x80) as int * 64 + (bs[3] - 0x80) == c as int
    ensures DecodeEscape(PercentBytes(bs) + rest) == Some((c, 12))
  {
    FirstEscapeReadBack(bs, rest);
    ContinuationReadBack(bs, rest, 1);
    ContinuationReadBack(bs, rest, 2);
    ContinuationReadBack(bs, rest, 3);
    DecodeFour(PercentBytes(bs) + rest, bs[0], bs[1] - 0x80, bs[2] - 0x80, bs[3] - 0x80);
  }

  lemma FirstEscapeReadBack(bs: seq<byte>, rest: string)
    requires bs != []
    ensures PercentByteAt(PercentBytes(bs) + rest) == Some(bs[0])
  {
    assert PercentBytes(bs) + rest == PercentByte(bs[0]) + (PercentBytes(bs[1..]) + rest);
    PercentByteReadBack(bs[0], PercentBytes(bs[1..]) + rest);
  }

  lemma DecodeTwo(s: string, b0: byte, x1: nat)
    requires PercentByteAt(s) == Some(b0) && 0xC0 <= b0 < 0xE0
    requires ContinuationAt(s, 1) == Some(x1)
    requires 0x80 <= (b0 - 0xC0) * 64 + x1
    ensures DecodeEscape(s) == Some((((b0 - 0xC0) * 64 + x1) as char, 6))
  {
  }

  lemma DecodeThree(s: string, b0: byte, x1: nat, x2: nat)
    requires PercentByteAt(s) == Some(b0) && 0xE0 <= b0 < 0xF0
    requires ContinuationAt(s, 1) == Some(x1) && ContinuationAt(s, 2) == Some(x2)
    requires var n := (b0 - 0xE0) * 4096 + x1 * 64 + x2; 0x800 <= n && !(0xD800 <= n < 0xE000)
    ensures DecodeEscape(s) == Some((((b0 - 0xE0) * 4096 + x1 * 64 + x2) as char, 9))
  {
  }

  lemma DecodeFour(s: string, b0: byte, x1: nat, x2: nat, x3: nat)
    requires PercentByteAt(s) == Some(b0) && 0xF0 <= b0 < 0xF8
    requires ContinuationAt(s, 1) == Some(x1) && ContinuationAt(s, 2) == Some(x2) && ContinuationAt(s, 3) == Some(x3)
    requires 0x1_0000 <= (b0 - 0xF0) * 0x4_0000 + x1 * 4096 + x2 * 64 + x3 < 0x11_0000
    ensures DecodeEscape(s) == Some((((b0 - 0xF0) * 0x4_0000 + x1 * 4096 + x2 * 64 + x3) as char, 12))
  {
  }

  lemma Utf8TwoBytes(c: char)
    requires 0x80 <= c as int < 0x800
    ensures var bs := Utf8(c);
      && |bs| == 2 && 0xC0 <= bs[0] < 0xE0 && 0x80 <= bs[1] < 0xC0
      && (bs[0] - 0xC0) as int * 64 + (bs[1] - 0x80) == c as int
  {
    var n := c as int;
    assert n == (n / 64) * 64 + n % 64;
  }

  lemma Utf8ThreeBytes(c: char)
    requires 0x800 <= c as int < 0x1_0000
    ensures var bs := Utf8(c);
      && |bs| == 3 && 0xE0 <= bs[0] < 0xF0 && 0x80 <= bs[1] < 0xC0 && 0x80 <= bs[2] < 0xC0
      && (bs[0] - 0xE0) as int * 4096 + (bs[1] - 0x80) as int * 64 + (bs[2] - 0x80) == c as int
  {
    var n := c as int;
    var q1 := n / 64;
    assert n == q1 * 64 + n % 64;
    assert q1 == (q1 / 64) * 64 + q1 % 64;
  }

  lemma Utf8FourBytes(c: char)
    requires 0x1_0000 <= c as int
    ensures var bs := Utf8(c);
      && |bs| == 4 && 0xF0 <= bs[0] < 0xF8 && 0x80 <= bs[1] < 0xC0 && 0x80 <= bs[2] < 0xC0 && 0x80 <= bs[3] < 0xC0
      && (bs[0] - 0xF0) as int * 0x4_0000 + (bs[1] - 0x80) as int * 4096 + (bs[2] - 0x80) as int * 64 + (bs[3] - 0x80) == c as int
  {
    var n := c as int;
    var q1 := n / 64;
    var q2 := q1 / 64;
    assert n == q1 * 64 + n % 64;
    assert q1 == q2 * 64 + q1 % 64;
    assert q2 == (q2 / 64) * 64 + q2 % 64;
  }

  /** What a server decodes from the encoded text is exactly the original string. */
  lemma {:induction false} DecodeEncode(s: string)
    ensures Decode(Encode(s)) == Some(s)
  {
    if s != [] {
      DecodeEncode(s[1..]);
      var tail := Encode(s[1..]);
      assert Encode(s) == EncodeChar(s[0]) + tail;
      if IsUnreserved(s[0]) {
        DecodePlainStep(s[0], tail, s[1..]);
      } else {
        EscapeDecodes(s[0], tail);
        DecodeEscapeStep(EncodeChar(s[0]), tail, s[0], s[1..]);
      }
      assert s == [s[0]] + s[1..];
    }
  }

  lemma DecodePlainStep(c: char, t: string, u: string)
    requires IsUnreserved(c) && Decode(t) == Some(u)
    ensures Decode([c] + t) == Some([c] + u)
  {
    assert ([c] + t)[1..] == t;
  }

  lemma DecodeEscapeStep(x: string, t: string, c: char, u: string)
    requires DecodeEscape(x + t) == Some((c, |x|)) && Decode(t) == Some(u)
    ensures Decode(x + t) == Some([c] + u)
  {
    assert (x + t)[|x|..] == t;
    assert (x + t)[0] == '%';
  }

  /** Distinct strings have distinct encodings. */
  lemma EncodeInjective(s: string, t: string)
    requires Encode(s) == Encode(t)
    ensures s == t
  {
    DecodeEncode(s);
    DecodeEncode(t);
  }

  /** Encoding works character by character, so it distributes over concatenation. */
  lemma {:induction false} EncodeAppend(s: string, t: string)
    ensures Encode(s + t) == Encode(s) + Encode(t)
  {
    if s == [] {
      assert s + t == t;
    } else {
      assert (s + t)[0] == s[0];
      assert (s + t)[1..] == s[1..] + t;
      EncodeAppend(s[1..], t);
    }
  }

  /** A string made of unreserved characters only is left as it is. */
  lemma {:induction false} EncodeKeepsUnreserved(s: string)
    requires forall i :: 0 <= i < |s| ==> IsUnreserved(s[i])
    ensures Encode(s) == s
  {
    if s != [] {
      EncodeKeepsUnreserved(s[1..]);
    }
  }
}
