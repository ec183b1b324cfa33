/**
 * Hexadecimal digits as the lexer reads them (`stoi(s, 0, 16)` on the four
 * bytes of a `\uXXXX` escape) and as the serializer writes them
 * (`setfill('0') << setw(4) << hex`).
 */
module Hex {
  import opened Wrappers

  /** `isxdigit`: a decimal digit or a letter a-f in either case. */
  predicate IsHexDigit(c: char) {
    '0' <= c <= '9' || 'a' <= c <= 'f' || 'A' <= c <= 'F'
  }

  predicate AllHexDigits(s: string) {
    forall i :: 0 <= i < |s| ==> IsHexDigit(s[i])
  }

  /** The digits the `hex` manipulator writes: decimal digits and lower-case letters only. */
  predicate LowerHex(s: string) {
    forall i :: 0 <= i < |s| ==> s[i] in "0123456789abcdef"
  }

  function DigitValue(c: char): (d: nat)
    requires IsHexDigit(c)
    ensures d < 16
  {
    if '0' <= c <= '9' then c as int - '0' as int
    else if 'a' <= c <= 'f' then c as int - 'a' as int + 10
    else c as int - 'A' as int + 10
  }

  /** The number a string of hex digits spells, most significant digit first. */
  function Value(s: string): nat
    requires AllHexDigits(s)
  {
    if |s| == 0 then 0 else Value(s[..|s| - 1]) * 16 + DigitValue(s[|s| - 1])
  }

  /** The longest prefix of `s` made of hex digits. */
  function LeadingDigits(s: string): (p: string)
    ensures p <= s && AllHexDigits(p)
    ensures |p| == |s| || !IsHexDigit(s[|p|])
    ensures AllHexDigits(s) ==> p == s
  {
    if |s| == 0 || !IsHexDigit(s[0]) then "" else [s[0]] + LeadingDigits(s[1..])
  }

  /**
   * `stoi(s, 0, 16)`: the value of the leading hex digits of `s`; the
   * conversion fails when `s` does not start with one.
   */
  function Stoi(s: string): (r: Option<nat>)
    ensures r.Some? <==> |s| > 0 && IsHexDigit(s[0])
    ensures AllHexDigits(s) && |s| > 0 ==> r == Some(Value(s))
  {
    var p := LeadingDigits(s);
    if |p| == 0 then None else Some(Value(p))
  }

  /** The lower-case digit the `hex` manipulator writes for `d`. */
  function Digit(d: nat): (c: char)
    requires d < 16
    ensures IsHexDigit(c) && DigitValue(c) == d
    ensures c in "0123456789abcdef"
  {
    if d < 10 then ('0' as int + d) as char else ('a' as int + d - 10) as char
  }

  /** The shortest lower-case hex rendering of `n`. */
  function Digits(n: nat): (s: string)
    ensures |s| > 0 && AllHexDigits(s) && LowerHex(s)
    ensures Value(s) == n
  {
    if n < 16 then [Digit(n)]
    else
      var s := Digits(n / 16) + [Digit(n % 16)];
      assert s[..|s| - 1] == Digits(n / 16);
      s
  }

  function Zeros(k: nat): (s: string)
    ensures |s| == k && AllHexDigits(s) && LowerHex(s)
  {
    if k == 0 then "" else "0" + Zeros(k - 1)
  }

  /**
   * `n` in lower-case hex, left-padded with '0' to at least `width`
   * characters; it reads back as `n`.
   */
  function Format(n: nat, width: nat): (s: string)
    ensures AllHexDigits(s) && LowerHex(s) && Value(s) == n
    ensures |s| == if |Digits(n)| < width then width else |Digits(n)|
  {
    var d := Digits(n);
    if |d| < width then
      LeadingZerosValue(width - |d|, d);
      Zeros(width - |d|) + d
    else d
  }

  /** Leading zeros do not change the value a digit string spells. */
  lemma {:induction false} LeadingZerosValue(k: nat, s: string)
    requires AllHexDigits(s)
    ensures AllHexDigits(Zeros(k) + s) && Value(Zeros(k) + s) == Value(s)
  {
    if k > 0 {
      var t := Zeros(k - 1) + s;
      LeadingZerosValue(k - 1, s);
      LeadingZeroValue(t);
      assert Zeros(k) + s == "0" + t;
    } else {
      assert Zeros(k) + s == s;
    }
  }

  lemma {:induction false} LeadingZeroValue(s: string)
    requires AllHexDigits(s)
    ensures AllHexDigits("0" + s) && Value("0" + s) == Value(s)
    decreases |s|
  {
    var t := "0" + s;
    if |s| > 0 {
      assert t[..|t| - 1] == "0" + s[..|s| - 1];
      LeadingZeroValue(s[..|s| - 1]);
    }
  }

  /** A number below 16^4 needs at most four digits, so `Format(n, 4)` has exactly four. */
  lemma {:induction false} FourDigits(n: nat)
    requires n < 0x10000
    ensures |Digits(n)| <= 4 && |Format(n, 4)| == 4
  {
    var a, b, c := n / 16, n / 256, n / 4096;
    assert a / 16 == b && b / 16 == c && c < 16;
    DigitsStep(n);
    DigitsStep(a);
    DigitsStep(b);
  }

  /** A number from 16^4 on needs at least five digits, so `Format(n, 4)` has more than four. */
  lemma {:induction false} FiveDigits(n: nat)
    requires 0x10000 <= n
    ensures |Digits(n)| >= 5 && |Format(n, 4)| >= 5
  {
    var a, b, c := n / 16, n / 256, n / 4096;
    assert a / 16 == b && b / 16 == c && c >= 16;
    DigitsStep(n);
    DigitsStep(a);
    DigitsStep(b);
    DigitsStep(c);
  }

  lemma DigitsStep(n: nat)
    ensures |Digits(n)| == if n < 16 then 1 else |Digits(n / 16)| + 1
  {
  }

  /** Reading back a formatted number as the lexer does gives the number. */
  lemma StoiOfFormat(n: nat, width: nat)
    ensures Stoi(Format(n, width)) == Some(n)
  {
  }
}
