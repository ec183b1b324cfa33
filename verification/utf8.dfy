/**
 * UTF-8 as the two library conversions use it: `to_bytes` turns the code
 * point of a `\uXXXX` escape into bytes, and `from_bytes` turns a String's
 * bytes into the code points the serializer escapes. Both are written out
 * here for well-formed input; `Decode` answers `None` where the conversion
 * would throw.
 */
module Utf8 {
  import opened Wrappers

  /** A Unicode scalar value: a code point that is not a surrogate. */
  predicate IsScalar(cp: int) {
    0 <= cp < 0x11_0000 && !(0xD800 <= cp < 0xE000)
  }

  predicate AllScalars(cps: seq<int>) {
    forall i :: 0 <= i < |cps| ==> IsScalar(cps[i])
  }

  /** A char standing for one byte. */
  predicate IsByte(c: char) {
    (c as int) < 0x100
  }

  predicate AllBytes(s: string) {
    forall i :: 0 <= i < |s| ==> IsByte(s[i])
  }

  function Byte(b: int): (c: char)
    requires 0 <= b < 0x100
    ensures c as int == b
  {
    b as char
  }

  predicate IsContinuation(c: char) {
    0x80 <= c as int < 0xC0
  }

  /** The shortest-form UTF-8 bytes of one scalar value. */
  function Encode(cp: int): (s: string)
    requires IsScalar(cp)
    ensures 1 <= |s| <= 4 && AllBytes(s)
    ensures |s| == 1 <==> cp < 0x80
    ensures cp < 0x80 ==> s == [cp as char]
  {
    if cp < 0x80 then [cp as char]
    else if cp < 0x800 then [Byte(0xC0 + cp / 64), Byte(0x80 + cp % 64)]
    else if cp < 0x1_0000 then
      [Byte(0xE0 + cp / 4096), Byte(0x80 + (cp / 64) % 64), Byte(0x80 + cp % 64)]
    else
      [Byte(0xF0 + cp / 262144), Byte(0x80 + (cp / 4096) % 64), Byte(0x80 + (cp / 64) % 64), Byte(0x80 + cp % 64)]
  }

  function EncodeAll(cps: seq<int>): (s: string)
    requires AllScalars(cps)
    ensures AllBytes(s)
  {
    if |cps| == 0 then "" else Encode(cps[0]) + EncodeAll(cps[1..])
  }

  /**
   * The first code point of `s` and the number of bytes it takes, or `None`
   * when `s` does not start with a well-formed sequence (a stray
   * continuation byte, a truncated or overlong sequence, an encoded
   * surrogate, a value above U+10FFFF, a char that is no byte).
   */
  function DecodeFirst(s: string): (r: Option<(int, nat)>)
    requires |s| > 0
    ensures r.Some? ==> IsScalar(r.value.0) && 1 <= r.value.1 <= |s|
    ensures r.Some? ==> Encode(r.value.0) == s[..r.value.1]
  {
    var b0 := s[0] as int;
    if b0 < 0x80 then Some((b0, 1))
    else if 0xC2 <= b0 < 0xE0 then
      if |s| >= 2 && IsContinuation(s[1]) then
        Join2(s);
        Some((Value2(s), 2))
      else None
    else if 0xE0 <= b0 < 0xF0 then
      if |s| >= 3 && IsContinuation(s[1]) && IsContinuation(s[2]) then
        var cp := Value3(s);
        if 0x800 <= cp && !(0xD800 <= cp < 0xE000) then
          Join3(s);
          Some((cp, 3))
        else None
      else None
    else if 0xF0 <= b0 < 0xF5 then
      if |s| >= 4 && IsContinuation(s[1]) && IsContinuation(s[2]) && IsContinuation(s[3]) then
        var cp := Value4(s);
        if 0x1_0000 <= cp < 0x11_0000 then
          Join4(s);
          Some((cp, 4))
        else None
      else None
    else None
  }

  /** The code point carried by a two-, three- or four-byte sequence. */
  function Value2(s: string): int
    requires |s| >= 2
  {
    (s[0] as int - 0xC0) * 64 + (s[1] as int - 0x80)
  }

  function Value3(s: string): int
    requires |s| >= 3
  {
    (s[0] as int - 0xE0) * 4096 + (s[1] as int - 0x80) * 64 + (s[2] as int - 0x80)
  }

  function Value4(s: string): int
    requires |s| >= 4
  {
    (s[0] as int - 0xF0) * 262144 + (s[1] as int - 0x80) * 4096 + (s[2] as int - 0x80) * 64 + (s[3] as int - 0x80)
  }

  /** A well-formed two-byte sequence is the encoding of the value it carries. */
  lemma Join2(s: string)
    requires |s| >= 2 && 0xC2 <= s[0] as int < 0xE0 && IsContinuation(s[1])
    ensures IsScalar(Value2(s)) && Encode(Value2(s)) == s[..2]
  {
    var cp := Value2(s);
    assert cp / 64 == s[0] as int - 0xC0 && cp % 64 == s[1] as int - 0x80;
  }

  lemma Join3(s: string)
    requires |s| >= 3 && 0xE0 <= s[0] as int < 0xF0 && IsContinuation(s[1]) && IsContinuation(s[2])
    requires 0x800 <= Value3(s) && !(0xD800 <= Value3(s) < 0xE000)
    ensures IsScalar(Value3(s)) && Encode(Value3(s)) == s[..3]
  {
    Split3(s[0] as int - 0xE0, s[1] as int - 0x80, s[2] as int - 0x80);
  }

  lemma Join4(s: string)
    requires |s| >= 4 && 0xF0 <= s[0] as int < 0xF5
    requires IsContinuation(s[1]) && IsContinuation(s[2]) && IsContinuation(s[3])
    requires 0x1_0000 <= Value4(s) < 0x11_0000
    ensures IsScalar(Value4(s)) && Encode(Value4(s)) == s[..4]
  {
    Split4(s[0] as int - 0xF0, s[1] as int - 0x80, s[2] as int - 0x80, s[3] as int - 0x80);
  }

  /** `from_bytes`: the code points of `s`, or `None` when `s` is not well-formed UTF-8. */
  function Decode(s: string): (r: Option<seq<int>>)
    ensures r.Some? ==> AllScalars(r.value) && EncodeAll(r.value) == s
    decreases |s|
  {
    if |s| == 0 then Some([])
    else
      match DecodeFirst(s)
      case None => None
      case Some((cp, n)) =>
        match Decode(s[n..])
        case None => None
        case Some(rest) =>
          EncodeCons(cp, rest, s, n);
          Some([cp] + rest)
  }

  /** Encoding a code point in front of others puts its bytes in front of theirs. */
  lemma EncodeCons(cp: int, cps: seq<int>, s: string, n: nat)
    requires IsScalar(cp) && AllScalars(cps) && n <= |s|
    requires Encode(cp) == s[..n] && EncodeAll(cps) == s[n..]
    ensures AllScalars([cp] + cps) && EncodeAll([cp] + cps) == s
  {
    assert ([cp] + cps)[1..] == cps;
    assert s == s[..n] + s[n..];
  }

  lemma Split3(a: int, b: int, c: int)
    requires 0 <= b < 64 && 0 <= c < 64 && 0 <= a
    ensures var cp := a * 4096 + b * 64 + c;
      cp / 4096 == a && (cp / 64) % 64 == b && cp % 64 == c
  {
    var cp := a * 4096 + b * 64 + c;
    assert cp / 64 == a * 64 + b;
  }

  lemma Split4(a: int, b: int, c: int, d: int)
    requires 0 <= b < 64 && 0 <= c < 64 && 0 <= d < 64 && 0 <= a
    ensures var cp := a * 262144 + b * 4096 + c * 64 + d;
      cp / 262144 == a && (cp / 4096) % 64 == b && (cp / 64) % 64 == c && cp % 64 == d
  {
    var cp := a * 262144 + b * 4096 + c * 64 + d;
    assert cp / 64 == a * 4096 + b * 64 + c;
    assert cp / 4096 == a * 64 + b;
  }

  /** Decoding the encoding of one scalar value reads back that value and its length. */
  lemma DecodeFirstEncode(cp: int, rest: string)
    requires IsScalar(cp)
    ensures DecodeFirst(Encode(cp) + rest) == Some((cp, |Encode(cp)|))
  {
    if cp < 0x80 {
      assert (Encode(cp) + rest)[0] == cp as char;
    } else if cp < 0x800 {
      DecodeFirstEncode2(cp, rest);
    } else if cp < 0x1_0000 {
      DecodeFirstEncode3(cp, rest);
    } else {
      DecodeFirstEncode4(cp, rest);
    }
  }

  lemma DecodeFirstEncode2(cp: int, rest: string)
    requires 0x80 <= cp < 0x800
    ensures DecodeFirst(Encode(cp) + rest) == Some((cp, 2))
  {
    var s := Encode(cp) + rest;
    var a, b := cp / 64, cp % 64;
    assert s[0] as int == 0xC0 + a && s[1] as int == 0x80 + b;
    assert cp == a * 64 + b;
  }

  lemma DecodeFirstEncode3(cp: int, rest: string)
    requires 0x800 <= cp < 0x1_0000 && IsScalar(cp)
    ensures DecodeFirst(Encode(cp) + rest) == Some((cp, 3))
  {
    var s := Encode(cp) + rest;
    var a, b, c := cp / 4096, (cp / 64) % 64, cp % 64;
    assert s[0] as int == 0xE0 + a;
    assert s[1] as int == 0x80 + b && s[2] as int == 0x80 + c;
    assert cp / 64 == a * 64 + b;
    assert cp == a * 4096 + b * 64 + c;
  }

  lemma DecodeFirstEncode4(cp: int, rest: string)
    requires 0x1_0000 <= cp < 0x11_0000
    ensures DecodeFirst(Encode(cp) + rest) == Some((cp, 4))
  {
    var s := Encode(cp) + rest;
    var a, b, c, d := cp / 262144, (cp / 4096) % 64, (cp / 64) % 64, cp % 64;
    assert s[0] as int == 0xF0 + a;
    assert s[1] as int == 0x80 + b && s[2] as int == 0x80 + c && s[3] as int == 0x80 + d;
    assert cp / 4096 == a * 64 + b;
    assert cp / 64 == (cp / 4096) * 64 + c;
    assert cp == a * 262144 + b * 4096 + c * 64 + d;
  }

  /** UTF-8 round trip: decoding the encoding of scalar values gives them back. */
  lemma {:induction false} DecodeEncode(cps: seq<int>)
    requires AllScalars(cps)
    ensures Decode(EncodeAll(cps)) == Some(cps)
  {
    if |cps| > 0 {
      var s := EncodeAll(cps);
      var e := Encode(cps[0]);
      DecodeFirstEncode(cps[0], EncodeAll(cps[1..]));
      assert s[|e|..] == EncodeAll(cps[1..]);
      DecodeEncode(cps[1..]);
      assert [cps[0]] + cps[1..] == cps;
    }
  }
}
