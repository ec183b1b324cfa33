/**
 * Concrete inputs on which the code as written departs from what a JSON
 * reader and writer are usually expected to do. Each lemma pins down the
 * exact outcome.
 */
module Quirks {
  import opened Wrappers
  import opened Values
  import Lexer
  import opened ParsingContext
  import opened Parser
  import Serializer
  import LexerProperties
  import Hex
  import Utf8

  /**
   * The tokens of `[]`: the `]` starts no value, so the array holds one null
   * pointer, and the tree is not one `toString` can print.
   */
  lemma EmptyArrayHoldsNull()
    ensures ParseTokens([Lexer.ArrayStart, Lexer.ArrayEnd]) == Success(Ref(Array([Nil])))
    ensures !Complete(Array([Nil]))
  {
    var ts := [Lexer.ArrayStart, Lexer.ArrayEnd];
    assert ReadValue(ts, 1) == Success(Read(Nil, 1));
    assert [] + [Nil] == [Nil];
    assert AfterElement(ts, 1, [Nil]) == Success(Read(Ref(Array([Nil])), 1));
    assert ReadElements(ts, 1, []) == Success(Read(Ref(Array([Nil])), 1));
    assert ReadValue(ts, 0) == ReadArray(ts, 0);
    assert [Nil][0].Nil?;
  }

  /** The tokens of `[[1],2]`: the outer array stops after the inner one, so it reads as `[[1]]`. */
  lemma NestedArrayTruncates()
    ensures var ts := [Lexer.ArrayStart, Lexer.ArrayStart, Lexer.Number("1"), Lexer.ArrayEnd,
                       Lexer.Comma, Lexer.Number("2"), Lexer.ArrayEnd];
      ParseTokens(ts) == Success(Ref(Array([Ref(Array([Ref(Number("1"))]))])))
  {
    var ts := [Lexer.ArrayStart, Lexer.ArrayStart, Lexer.Number("1"), Lexer.ArrayEnd,
               Lexer.Comma, Lexer.Number("2"), Lexer.ArrayEnd];
    var one := Ref(Number("1"));
    var inner := Ref(Array([one]));
    assert ReadValue(ts, 2) == Success(Read(one, 2));
    assert [] + [one] == [one];
    assert AfterElement(ts, 2, [one]) == Success(Read(inner, 3));
    assert ReadElements(ts, 2, []) == Success(Read(inner, 3));
    assert ReadValue(ts, 1) == ReadArray(ts, 1);
    assert [] + [inner] == [inner];
    assert AfterElement(ts, 3, [inner]) == Success(Read(Ref(Array([inner])), 3));
    assert ReadElements(ts, 1, []) == Success(Read(Ref(Array([inner])), 3));
    assert ReadValue(ts, 0) == ReadArray(ts, 0);
  }

  /** A `[` that is the last token makes `readArray` recurse without end. */
  lemma LoneBracketDiverges()
    ensures ParseTokens([Lexer.ArrayStart]) == Failure(Diverges)
    ensures ParseTokens([Lexer.ArrayStart, Lexer.ArrayStart]) == Failure(Diverges)
  {
    var ts := [Lexer.ArrayStart, Lexer.ArrayStart];
    assert ReadValue(ts, 1).Failure?;
    assert ReadValue(ts, 0) == ReadArray(ts, 0);
  }

  /**
   * In a text such as `[1]` the byte after the number is the last of the
   * buffer, so the step back onto the number fails and `load` ends without
   * reading the `]`.
   */
  lemma StepBackLosesLastByte(t: string)
    requires |t| == 3 && t[0] == '[' && Lexer.IsDigit(t[1]) && t[2] == ']'
    ensures Lexer.Load(t) == Success([Lexer.ArrayStart, Lexer.Number(t[1 .. 2])])
  {
    var c0 := Start(t);
    assert Lexer.Scan(c0) == Success((Some(Lexer.ArrayStart), c0));
    LexerProperties.TokenLoopPush(c0, [], Lexer.ArrayStart, c0);
    var c1 := Ahead(c0, 1);
    assert Peek(c1) == t[1] && Lexer.RunEnd(t, 1) == 2;
    LexerProperties.NumberBeforeLastByte(c1, [] + [Lexer.ArrayStart]);
    assert [] + [Lexer.ArrayStart] + [Lexer.Number(t[1 .. 2])] == [Lexer.ArrayStart, Lexer.Number(t[1 .. 2])];
  }

  /** A digit, a lower-case `e` and a digit, such as `1e5`, make one Number token. */
  lemma LowerExponentAccepted(t: string)
    requires |t| == 3 && Lexer.IsDigit(t[0]) && t[1] == 'e' && Lexer.IsDigit(t[2])
    ensures Lexer.Load(t) == Success([Lexer.Number(t)])
  {
    var c := Start(t);
    assert Lexer.RunEnd(t, 0) == 3 && t[0 .. 3] == t;
    LexerProperties.NumberToEnd(c, []);
    assert [] + [Lexer.Number(t)] == [Lexer.Number(t)];
  }

  /**
   * A text that opens with a digit and an upper-case `E`, such as `1E5`,
   * stops at the `E`, on row 0 and column 1.
   */
  lemma UpperExponentStops(t: string)
    requires |t| >= 3 && Lexer.IsDigit(t[0]) && t[1] == 'E'
    ensures Lexer.Load(t) == Failure(Lexer.ParserException(0, 1))
  {
    LexerProperties.DigitThenUpperExponent(Start(t), []);
  }

  /**
   * A digit followed by an upper-case `E` as the whole text, such as `1E`:
   * the `E` is the last byte, so `load` never reads it and the text loads
   * as the one Number of its digit.
   */
  lemma UpperExponentLast(t: string)
    requires |t| == 2 && Lexer.IsDigit(t[0]) && t[1] == 'E'
    ensures Lexer.Load(t) == Success([Lexer.Number(t[..1])])
  {
    var c := Start(t);
    assert Lexer.RunEnd(t, 1) == 1;
    assert t[0 .. |t| - 1] == t[..1];
    LexerProperties.NumberBeforeLastByte(c, []);
    assert [] + [Lexer.Number(t[..1])] == [Lexer.Number(t[..1])];
  }

  /**
   * The writer drops every double quote, backslash and slash of ASCII text,
   * and writes each line feed as a form feed; the other bytes are kept.
   * With nothing to drop, byte `i` of the text sits at `i + 1` between the
   * quotes.
   */
  lemma WriterDropsEscapes(s: string)
    requires LexerProperties.Ascii(s)
    ensures var t := Serializer.StringText(s);
      (forall i :: 0 < i < |t| - 1 ==> t[i] !in "\"\\/\n")
      && ('\n' in s ==> '\U{000C}' in t)
      && (forall i :: 0 <= i < |s| && s[i] !in "\"\\/\n" ==> s[i] in t)
    ensures LexerProperties.DropFree(s) ==>
      var t := Serializer.StringText(s);
      |t| == |s| + 2
      && forall i :: 0 <= i < |s| ==> t[i + 1] == if s[i] == '\n' then '\U{000C}' else s[i]
  {
    LexerProperties.StringTextAscii(s);
    LexerProperties.WrittenBytes(s);
    var w := LexerProperties.Written(s);
    assert forall i :: 0 < i < |w| + 1 ==> ("\"" + w + "\"")[i] == w[i - 1];
  }

  /**
   * A code point from U+10000 to U+FFFFF, such as U+1F600, is written as
   * `\u` and five hex digits (`\u1f600`). The reader takes four of them,
   * so the text reads back as the code point `cp / 16` followed by the last
   * digit as a plain byte: bytes other than the ones written.
   */
  lemma AstralEscapeMisread(cp: int, b: string)
    requires 0x1_0000 <= cp < 0x10_0000 && Utf8.IsScalar(cp / 16) && Utf8.Decode(b) == Some([cp])
    ensures Lexer.Load(Serializer.StringText(b))
         == Success([Lexer.String(Utf8.Encode(cp / 16) + [Hex.Digit(cp % 16)])])
    ensures Utf8.Encode(cp / 16) + [Hex.Digit(cp % 16)] != b
  {
    var t := "\"" + ("\\u" + Hex.Format(cp, 4)) + "\"";
    AstralText(cp, b);
    AstralLiteral(cp);
    LexerProperties.FifthHexDigitIsPlain(t);
    AstralBytesDiffer(cp, b);
  }

  /** The written literal has the shape of a four-digit escape followed by one more digit. */
  lemma AstralLiteral(cp: int)
    requires 0x1_0000 <= cp < 0x10_0000 && Utf8.IsScalar(cp / 16)
    ensures var t := "\"" + ("\\u" + Hex.Format(cp, 4)) + "\"";
      LexerProperties.FiveDigitEscape(t) && Hex.Value(t[3 .. 7]) == cp / 16 && t[7] == Hex.Digit(cp % 16)
  {
    AstralDigits(cp);
    QuotedEscape(Hex.Format(cp, 4));
  }

  /** The bytes of `"\u` followed by `h` and a closing quote, for five digits `h`. */
  lemma QuotedEscape(h: string)
    requires |h| == 5 && Hex.AllHexDigits(h[..4]) && Hex.IsHexDigit(h[4])
    ensures var t := "\"" + ("\\u" + h) + "\"";
      && |t| == 9 && t[0] == '"' && t[1] == '\\' && t[2] == 'u' && t[8] == '"'
      && t[3 .. 7] == h[..4] && t[7] == h[4]
  {
    var t := "\"" + ("\\u" + h) + "\"";
    assert forall i :: 3 <= i < 8 ==> t[i] == h[i - 3];
  }

  /** What `String::toString` writes for the bytes of such a code point. */
  lemma AstralText(cp: int, b: string)
    requires 0x1_0000 <= cp < 0x10_0000 && Utf8.Decode(b) == Some([cp])
    ensures Serializer.StringText(b) == "\"" + ("\\u" + Hex.Format(cp, 4)) + "\""
  {
    EscapeWide(cp);
    assert Serializer.StringBody(b) == Serializer.Escape([cp]);
  }

  /** The escaped body of one code point above ASCII. */
  lemma EscapeWide(cp: int)
    requires 0x80 <= cp && Utf8.IsScalar(cp)
    ensures Serializer.Escape([cp]) == "\\u" + Hex.Format(cp, 4)
  {
    assert [cp][1..] == [];
    assert Serializer.EscapeChar(cp) == Serializer.UnicodeEscape(cp);
  }

  /** The hex digits written for such a code point: the four of `cp / 16`, then the last one. */
  lemma AstralDigits(cp: int)
    requires 0x1_0000 <= cp < 0x10_0000
    ensures var h := Hex.Format(cp, 4);
      |h| == 5 && Hex.AllHexDigits(h[..4]) && Hex.Value(h[..4]) == cp / 16 && h[4] == Hex.Digit(cp % 16)
  {
    var h := Hex.Format(cp, 4);
    Hex.FiveDigits(cp);
    Hex.FourDigits(cp / 16);
    Hex.DigitsStep(cp);
    assert h == Hex.Digits(cp) == Hex.Digits(cp / 16) + [Hex.Digit(cp % 16)];
    assert h[..4] == Hex.Digits(cp / 16);
  }

  /** The bytes read back start a three-byte sequence where the written ones start a four-byte one. */
  lemma AstralBytesDiffer(cp: int, b: string)
    requires 0x1_0000 <= cp < 0x10_0000 && Utf8.IsScalar(cp / 16) && Utf8.Decode(b) == Some([cp])
    ensures Utf8.Encode(cp / 16) + [Hex.Digit(cp % 16)] != b
  {
    assert Utf8.EncodeAll([cp]) == Utf8.Encode(cp) by {
      assert [cp][1..] == [];
    }
    assert Utf8.Encode(cp / 16)[0] as int < 0xF0 <= b[0] as int;
  }

  /** A buffer holding only a prefix of `null`, such as `nul` or `n`, reads as null. */
  lemma TruncatedNull(t: string)
    requires 0 < |t| <= 4 && t == "null"[.. |t|]
    ensures Lexer.Load(t) == Success([Lexer.Null])
  {
    LexerProperties.NullPrefixAtEnd(Start(t), []);
    assert [] + [Lexer.Null] == [Lexer.Null];
  }
}
