/**
 * What `readString` decodes and what `load` makes of the text
 * `String::toString` writes. A literal without backslashes is copied
 * byte for byte up to its closing quote; a backslash escape is replaced by
 * the byte or the UTF-8 bytes it stands for. ASCII text without `"`,
 * `\`, `/` and the line feed survives being written and read back. ASCII
 * text with one of those four bytes does not (see the quirk lemmas).
 */
module LexerProperties {
  import opened Wrappers
  import opened ParsingContext
  import Hex
  import Utf8
  import opened Lexer
  import Serializer

  /**
   * A run of bytes without `"` or `\` up to a closing quote at `e` is
   * appended to the literal as it is, and the loop stops on the quote.
   */
  lemma {:induction false} StringLoopPlain(c: Context, acc: string, e: nat)
    requires c.Valid() && c.pos < e < |c.text| && c.text[e] == '"'
    requires forall i :: c.pos < i < e ==> c.text[i] != '"' && c.text[i] != '\\'
    ensures StringLoop(c, acc) == Success((acc + c.text[c.pos + 1 .. e], Ahead(c, e - c.pos)))
    decreases e - c.pos
  {
    if c.pos + 1 == e {
      StringLoopStep(c, acc);
      assert acc + c.text[c.pos + 1 .. e] == acc;
    } else {
      var ch := c.text[c.pos + 1];
      StringLoopStep(c, acc);
      StringLoopPlain(Ahead(c, 1), acc + [ch], e);
      assert Ahead(Ahead(c, 1), e - c.pos - 1) == Ahead(c, e - c.pos);
      AppendSlice(acc, c.text, c.pos + 1, e);
    }
  }

  /** One turn of `readString`'s loop on a byte other than `\`: stop on a quote, otherwise append it. */
  lemma StringLoopStep(c: Context, acc: string)
    requires c.Valid() && c.pos + 1 < |c.text| && c.text[c.pos + 1] != '\\'
    ensures c.text[c.pos + 1] == '"' ==> StringLoop(c, acc) == Success((acc, Ahead(c, 1)))
    ensures c.text[c.pos + 1] != '"' ==> StringLoop(c, acc) == StringLoop(Ahead(c, 1), acc + [c.text[c.pos + 1]])
  {
    assert Next(c, 1) == (true, Ahead(c, 1));
  }

  /** `readString` on a literal without escapes gives the bytes between the quotes. */
  lemma ReadStringPlain(c: Context, e: nat)
    requires c.Valid() && c.pos < e < |c.text| && c.text[e] == '"'
    requires forall i :: c.pos < i < e ==> c.text[i] != '"' && c.text[i] != '\\'
    ensures ReadString(c) == Success((c.text[c.pos + 1 .. e], Ahead(c, e - c.pos)))
  {
    StringLoopPlain(c, "", e);
    assert "" + c.text[c.pos + 1 .. e] == c.text[c.pos + 1 .. e];
  }

  /** On an opening quote, `load` pushes the String token of the literal. */
  lemma ScanPlain(c: Context, e: nat)
    requires c.Valid() && c.text[c.pos] == '"' && c.pos < e < |c.text| && c.text[e] == '"'
    requires forall i :: c.pos < i < e ==> c.text[i] != '"' && c.text[i] != '\\'
    ensures Scan(c) == Success((Some(Lexer.String(c.text[c.pos + 1 .. e])), Ahead(c, e - c.pos)))
  {
    ReadStringPlain(c, e);
  }

  /**
   * A backslash and a letter other than `u` append the byte the letter
   * stands for (`Unescape`): a control byte for `b f n r t`, the letter
   * itself otherwise, so `\"`, `\\` and `\/` give `"`, `\` and `/`.
   */
  lemma StringLoopEscape(c: Context, acc: string)
    requires c.Valid() && c.pos + 2 < |c.text| && c.text[c.pos + 1] == '\\' && c.text[c.pos + 2] != 'u'
    ensures StringLoop(c, acc) == StringLoop(Ahead(c, 2), acc + [Unescape(c.text[c.pos + 2])])
  {
    assert Next(c, 1) == (true, Ahead(c, 1));
    assert Next(Ahead(c, 1), 1) == (true, Ahead(c, 2));
  }

  /** On an opening quote, `load` pushes whatever `readString` decodes, or fails as it does. */
  lemma ScanQuote(c: Context)
    requires c.Valid() && Peek(c) == '"'
    ensures ReadString(c).Success? ==>
      Scan(c) == Success((Some(Lexer.String(ReadString(c).value.0)), ReadString(c).value.1))
    ensures ReadString(c).Failure? ==> Scan(c) == Failure(ReadString(c).error)
  {
    assert !IsSpace('"') && Punctuation('"').None?;
  }

  /**
   * `\u` and four hex digits naming a scalar value append that value's
   * UTF-8 bytes and leave the cursor on the last digit.
   */
  lemma StringLoopUnicode(c: Context, acc: string)
    requires c.Valid() && c.pos + 6 < |c.text| && c.text[c.pos + 1] == '\\' && c.text[c.pos + 2] == 'u'
    requires Hex.AllHexDigits(c.text[c.pos + 3 .. c.pos + 7])
    requires Utf8.IsScalar(Hex.Value(c.text[c.pos + 3 .. c.pos + 7]))
    ensures StringLoop(c, acc)
         == StringLoop(Ahead(c, 6), acc + Utf8.Encode(Hex.Value(c.text[c.pos + 3 .. c.pos + 7])))
  {
    var c2 := Ahead(c, 2);
    assert Next(c, 1) == (true, Ahead(c, 1));
    assert Next(Ahead(c, 1), 1) == (true, c2);
    var (digits, c3) := ReadHex(c2, 4);
    assert digits == c.text[c.pos + 3 .. c.pos + 7] && c3 == Ahead(c, 6);
  }

  /** The bytes of a literal made of `\u`, five hex digits and the closing quote. */
  predicate FiveDigitEscape(t: string) {
    |t| == 9 && t[0] == '"' && t[1] == '\\' && t[2] == 'u' && t[8] == '"'
    && Hex.AllHexDigits(t[3 .. 7]) && Utf8.IsScalar(Hex.Value(t[3 .. 7]))
    && t[7] != '"' && t[7] != '\\'
  }

  /**
   * A `\u` escape takes exactly four hex digits: in a literal such as
   * `"\u1f600"` the fifth digit is an ordinary byte after the decoded code
   * point, and the literal ends on the closing quote.
   */
  lemma ReadStringFifthDigit(t: string)
    requires FiveDigitEscape(t)
    ensures ReadString(Start(t)) == Success((Utf8.Encode(Hex.Value(t[3 .. 7])) + [t[7]], Ahead(Start(t), 8)))
  {
    var c := Start(t);
    var acc := Utf8.Encode(Hex.Value(t[3 .. 7]));
    StringLoopUnicode(c, "");
    assert "" + acc == acc;
    StringLoopLastByte(Ahead(c, 6), acc);
    assert Ahead(Ahead(c, 6), 2) == Ahead(c, 8);
  }

  /** One plain byte and then the closing quote. */
  lemma StringLoopLastByte(c: Context, acc: string)
    requires c.Valid() && c.pos + 2 < |c.text| && c.text[c.pos + 2] == '"'
    requires c.text[c.pos + 1] != '"' && c.text[c.pos + 1] != '\\'
    ensures StringLoop(c, acc) == Success((acc + [c.text[c.pos + 1]], Ahead(c, 2)))
  {
    StringLoopPlain(c, acc, c.pos + 2);
    assert c.text[c.pos + 1 .. c.pos + 2] == [c.text[c.pos + 1]];
  }

  /** `load` on such a literal: one String token, the fifth digit kept as a byte. */
  lemma FifthHexDigitIsPlain(t: string)
    requires FiveDigitEscape(t)
    ensures Load(t) == Success([Lexer.String(Utf8.Encode(Hex.Value(t[3 .. 7])) + [t[7]])])
  {
    var c := Start(t);
    var lit := Utf8.Encode(Hex.Value(t[3 .. 7])) + [t[7]];
    ReadStringFifthDigit(t);
    ScanQuote(c);
    TokenLoopLast(c, [], Lexer.String(lit), Ahead(c, 8));
    assert [] + [Lexer.String(lit)] == [Lexer.String(lit)];
  }

  /** Bytes below 0x80: each is one UTF-8 code point of its own value. */
  predicate Ascii(s: string) {
    forall i :: 0 <= i < |s| ==> s[i] as int < 0x80
  }

  /** Bytes `String::toString` writes unchanged and `readString` reads unchanged. */
  predicate Safe(s: string) {
    Ascii(s) && forall i :: 0 <= i < |s| ==> s[i] !in "\"\\/\n"
  }

  /** The code points of an ASCII string: one per byte. */
  function Codes(s: string): (cps: seq<int>)
    ensures |cps| == |s|
    ensures forall i :: 0 <= i < |s| ==> cps[i] == s[i] as int
  {
    seq(|s|, i requires 0 <= i < |s| => s[i] as int)
  }

  lemma {:induction false} EncodeAscii(s: string)
    requires Ascii(s)
    ensures Utf8.AllScalars(Codes(s)) && Utf8.EncodeAll(Codes(s)) == s
  {
    if |s| > 0 {
      assert Codes(s)[1..] == Codes(s[1..]);
      EncodeAscii(s[1..]);
      assert [s[0]] + s[1..] == s;
    }
  }

  /**
   * Reference reading of what the writer does to ASCII text, byte by byte:
   * `"`, `\` and `/` are dropped, a line feed becomes a form feed, and
   * every other byte is kept.
   */
  function Written(s: string): string {
    if |s| == 0 then ""
    else if s[0] in "\"\\/" then Written(s[1..])
    else if s[0] == '\n' then "\U{000C}" + Written(s[1..])
    else [s[0]] + Written(s[1..])
  }

  /** No `"`, `\` or `/` in `s`: the bytes the writer drops. */
  predicate DropFree(s: string) {
    forall i :: 0 <= i < |s| ==> s[i] !in "\"\\/"
  }

  /**
   * What the reference reading keeps: no `"`, `\`, `/` or line feed comes
   * out, a line feed in comes out as a form feed, and every other byte in
   * comes out. Without bytes to drop the output lines up with the input
   * byte for byte, line feeds replaced by form feeds.
   */
  lemma {:induction false} WrittenBytes(s: string)
    ensures forall i :: 0 <= i < |Written(s)| ==> Written(s)[i] !in "\"\\/\n"
    ensures '\n' in s ==> '\U{000C}' in Written(s)
    ensures forall i :: 0 <= i < |s| && s[i] !in "\"\\/\n" ==> s[i] in Written(s)
    ensures |Written(s)| <= |s|
    ensures DropFree(s) ==> |Written(s)| == |s|
    ensures DropFree(s) ==>
      forall i :: 0 <= i < |s| ==> Written(s)[i] == if s[i] == '\n' then '\U{000C}' else s[i]
  {
    if |s| > 0 {
      WrittenBytes(s[1..]);
      assert forall i :: 1 <= i < |s| ==> s[i] == s[1..][i - 1];
      if DropFree(s) {
        assert DropFree(s[1..]);
        var w := Written(s);
        assert w[1..] == Written(s[1..]);
        assert forall i :: 1 <= i < |s| ==> w[i] == Written(s[1..])[i - 1];
      }
    }
  }

  lemma {:induction false} EscapeAscii(s: string)
    requires Ascii(s)
    ensures Utf8.AllScalars(Codes(s)) && Serializer.Escape(Codes(s)) == Written(s)
  {
    if |s| > 0 {
      assert Codes(s)[1..] == Codes(s[1..]);
      EscapeAscii(s[1..]);
    }
  }

  /** `String::toString` on ASCII text: the reference reading between quotes. */
  lemma StringTextAscii(s: string)
    requires Ascii(s)
    ensures Serializer.StringText(s) == "\"" + Written(s) + "\""
  {
    EncodeAscii(s);
    Utf8.DecodeEncode(Codes(s));
    EscapeAscii(s);
  }

  lemma {:induction false} EscapeSafe(s: string)
    requires Safe(s)
    ensures Utf8.AllScalars(Codes(s)) && Serializer.Escape(Codes(s)) == s
  {
    if |s| > 0 {
      assert Codes(s)[1..] == Codes(s[1..]);
      EscapeSafe(s[1..]);
      assert [s[0]] + s[1..] == s;
    }
  }

  /** A safe key is written between quotes exactly as it is. */
  lemma StringTextSafe(s: string)
    requires Safe(s)
    ensures Serializer.StringText(s) == "\"" + s + "\""
  {
    EncodeAscii(s);
    Utf8.DecodeEncode(Codes(s));
    EscapeSafe(s);
  }

  /** Round trip: `load` reads the text of a safe String back as one String token. */
  lemma LoadStringText(s: string)
    requires Safe(s)
    ensures Load(Serializer.StringText(s)) == Success([Lexer.String(s)])
  {
    StringTextSafe(s);
    var text := "\"" + s + "\"";
    var c := Start(text);
    var e := |text| - 1;
    assert c.text[c.pos + 1 .. e] == s;
    ScanPlain(c, e);
    assert Next(Ahead(c, e), 1) == (false, Ahead(c, e));
    assert [] + [Lexer.String(s)] == [Lexer.String(s)];
    assert TokenLoop(c, []) == Success([Lexer.String(s)]);
  }

  /** A token pushed with bytes left after the cursor: `load` goes on at the next byte. */
  lemma TokenLoopPush(c: Context, acc: seq<Token>, t: Token, d: Context)
    requires c.Valid() && Scan(c) == Success((Some(t), d)) && d.pos < |d.text| - 1
    ensures d.Valid() && TokenLoop(c, acc) == TokenLoop(Ahead(d, 1), acc + [t])
  {
    assert Next(d, 1) == (true, Ahead(d, 1));
  }

  /** A token pushed with the cursor on the last byte: `load` ends with it. */
  lemma TokenLoopLast(c: Context, acc: seq<Token>, t: Token, d: Context)
    requires c.Valid() && Scan(c) == Success((Some(t), d)) && d.pos == |d.text| - 1
    ensures TokenLoop(c, acc) == Success(acc + [t])
  {
  }

  /** A byte the scan rejects: `load` fails with the scan's error. */
  lemma TokenLoopStops(c: Context, acc: seq<Token>)
    requires c.Valid() && Scan(c).Failure?
    ensures TokenLoop(c, acc) == Failure(Scan(c).error)
  {
  }

  /** Text made only of white space and the six structural bytes. */
  predicate Structural(s: string) {
    forall i :: 0 <= i < |s| ==> IsSpace(s[i]) || Punctuation(s[i]).Some?
  }

  /** Reference reading of such text: the structural bytes' tokens, in text order. */
  function StructuralTokens(s: string): seq<Token> {
    if |s| == 0 then []
    else (match Punctuation(s[0]) case Some(t) => [t] case None => []) + StructuralTokens(s[1..])
  }

  /**
   * From the cursor on, text of white space and structural bytes is read
   * as exactly its structural tokens, in order, after those already pushed.
   */
  lemma {:induction false} TokenLoopStructural(c: Context, acc: seq<Token>)
    requires c.Valid() && Structural(c.text[c.pos..])
    ensures TokenLoop(c, acc) == Success(acc + StructuralTokens(c.text[c.pos..]))
    decreases |c.text| - c.pos
  {
    var s := c.text[c.pos..];
    var ch := Peek(c);
    assert s[0] == ch;
    var step := Scan(c).value;
    var acc' := match step.0 case Some(t) => acc + [t] case None => acc;
    assert acc + StructuralTokens(s) == acc' + StructuralTokens(s[1..]) by {
      if IsSpace(ch) {
        assert Punctuation(ch).None?;
      }
    }
    var (moved, c') := Next(step.1, 1);
    if moved {
      assert c'.text[c'.pos..] == s[1..];
      assert Structural(s[1..]) by {
        forall i | 0 <= i < |s[1..]|
          ensures IsSpace(s[1..][i]) || Punctuation(s[1..][i]).Some?
        {
          assert s[1..][i] == s[i + 1];
        }
      }
      TokenLoopStructural(c', acc');
    } else {
      assert s[1..] == [] && StructuralTokens(s[1..]) == [];
      assert acc' + [] == acc';
    }
  }

  /** `load` of a text of white space and structural bytes: exactly their tokens. */
  lemma LoadStructural(text: string)
    requires Structural(text)
    ensures Load(text) == Success(StructuralTokens(text))
  {
    if |text| > 0 {
      assert Start(text).text[0..] == text;
      TokenLoopStructural(Start(text), []);
      assert [] + StructuralTokens(text) == StructuralTokens(text);
    }
  }

  /** A byte of the numeric class is handed to `readNumber`. */
  lemma ScanNumeric(c: Context)
    requires c.Valid() && IsNumeric(Peek(c))
    ensures Scan(c) == ScanNumber(c)
  {
    var ch := Peek(c);
    assert !IsSpace(ch) && Punctuation(ch).None? && ch != '"' && ch != 't' && ch != 'f' && ch != 'n';
  }

  /**
   * A numeric run that `stod` accepts gives a Number token with the run as
   * its literal; the cursor ends on the run's last byte, or on the last byte
   * of the buffer when the step back fails.
   */
  lemma ScanNumberRun(c: Context, e: nat)
    requires c.Valid() && IsNumeric(Peek(c)) && e == RunEnd(c.text, c.pos)
    requires StodAccepts(c.text[c.pos .. e])
    ensures var d := if e < |c.text| - 1 then e - 1 else |c.text| - 1;
      c.pos <= d && ScanNumber(c) == Success((Some(Number(c.text[c.pos .. e])), Ahead(c, d - c.pos)))
  {
    var d := if e < |c.text| - 1 then e - 1 else |c.text| - 1;
    var r := ReadNumber(c);
    assert r.Success? && r.value.1.pos == d;
    assert r.value.1 == Ahead(c, d - c.pos);
  }

  /**
   * A keyword that fits gives its token; the cursor ends on the keyword's
   * last byte, or on the last byte of the buffer when the step back fails.
   */
  lemma ScanKeywordFits(c: Context, keyword: string, t: Token)
    requires c.Valid() && |keyword| > 0 && KeywordFits(c, keyword)
    ensures var d := if c.pos + |keyword| < |c.text| - 1 then c.pos + |keyword| - 1 else |c.text| - 1;
      c.pos <= d && ScanKeyword(c, keyword, t) == Success((Some(t), Ahead(c, d - c.pos)))
  {
  }

  /**
   * A number whose run stops on the last byte of the buffer: the step back
   * fails, the cursor stays on that byte, and `load` ends without reading
   * it, so a closing bracket or brace there is lost.
   */
  lemma NumberBeforeLastByte(c: Context, acc: seq<Token>)
    requires c.Valid() && IsNumeric(Peek(c)) && RunEnd(c.text, c.pos) == |c.text| - 1
    requires StodAccepts(c.text[c.pos .. |c.text| - 1])
    ensures TokenLoop(c, acc) == Success(acc + [Number(c.text[c.pos .. |c.text| - 1])])
  {
    ScanNumeric(c);
    ScanNumberRun(c, |c.text| - 1);
    TokenLoopLast(c, acc, Number(c.text[c.pos .. |c.text| - 1]), Ahead(c, |c.text| - 1 - c.pos));
  }

  /**
   * A number that runs to the end of the buffer: the loop ends with it and
   * the whole run is the literal.
   */
  lemma NumberToEnd(c: Context, acc: seq<Token>)
    requires c.Valid() && IsNumeric(Peek(c)) && RunEnd(c.text, c.pos) == |c.text|
    requires StodAccepts(c.text[c.pos .. |c.text|])
    ensures TokenLoop(c, acc) == Success(acc + [Number(c.text[c.pos .. |c.text|])])
  {
    ScanNumeric(c);
    ScanNumberRun(c, |c.text|);
    TokenLoopLast(c, acc, Number(c.text[c.pos .. |c.text|]), Ahead(c, |c.text| - 1 - c.pos));
  }

  /**
   * The numeric class has the lower-case exponent letter only: a byte that
   * no branch of `load` recognises, such as `E`, stops it with the cursor's
   * row and column.
   */
  lemma UpperExponentRejected(c: Context)
    requires c.Valid() && Peek(c) == 'E'
    ensures IsNumeric('e') && !IsNumeric('E')
    ensures Scan(c) == Failure(ParserException(c.row, c.column))
  {
    assert !Recognised('E');
  }

  /**
   * The bytes that may occur in a number in the grammar of section 6 of
   * RFC 8259: digits, the signs, the decimal point and both exponent letters.
   */
  predicate NumberGrammarByte(ch: char) {
    IsDigit(ch) || ch in "+-.eE"
  }

  /** `isNumberic` is the grammar's byte class without the upper-case exponent letter. */
  lemma NumericBytes(ch: char)
    ensures IsNumeric(ch) <==> NumberGrammarByte(ch) && ch != 'E'
  {
  }

  /**
   * A digit followed by `E` with bytes after it: the number ends at the
   * digit, and the `E` stops `load` one column further on.
   */
  lemma DigitThenUpperExponent(c: Context, acc: seq<Token>)
    requires c.Valid() && IsDigit(Peek(c)) && c.pos + 2 < |c.text| && c.text[c.pos + 1] == 'E'
    ensures TokenLoop(c, acc) == Failure(ParserException(c.row, c.column + 1))
  {
    var e := Ahead(c, 1);
    UpperExponentRejected(e);
    TokenLoopStops(e, acc + [Number(c.text[c.pos .. c.pos + 1])]);
    ScanNumeric(c);
    assert RunEnd(c.text, c.pos + 1) == c.pos + 1;
    ScanNumberRun(c, c.pos + 1);
    assert Ahead(c, 0) == c;
    TokenLoopPush(c, acc, Number(c.text[c.pos .. c.pos + 1]), c);
  }

  /** A `t` or an `f` is handed to the keyword branch for `true` or `false`. */
  lemma ScanBoolean(c: Context)
    requires c.Valid() && (Peek(c) == 't' || Peek(c) == 'f')
    ensures Scan(c) == ScanKeyword(c, if Peek(c) == 't' then "true" else "false", Boolean(Peek(c) == 't'))
  {
    var ch := Peek(c);
    assert !IsSpace(ch) && Punctuation(ch).None? && ch != '"';
  }

  /** An `n` is handed to the keyword branch for `null`. */
  lemma ScanNull(c: Context)
    requires c.Valid() && Peek(c) == 'n'
    ensures Scan(c) == ScanKeyword(c, "null", Null)
  {
    assert !IsSpace('n') && Punctuation('n').None? && !IsNumeric('n');
  }

  /**
   * Only the bytes of a keyword that fit in the buffer are compared, so a
   * buffer that ends inside `null` still gives a Null token.
   */
  lemma NullPrefixAtEnd(c: Context, acc: seq<Token>)
    requires c.Valid() && |c.text| - c.pos <= 4 && c.text[c.pos ..] == "null"[.. |c.text| - c.pos]
    ensures TokenLoop(c, acc) == Success(acc + [Null])
  {
    NullPrefixFits(c);
    ScanNull(c);
    ScanKeywordFits(c, "null", Null);
    TokenLoopLast(c, acc, Null, Ahead(c, |c.text| - 1 - c.pos));
  }

  /** The tail of the buffer spells a prefix of `null`: the scan sees `n` and the keyword fits. */
  lemma NullPrefixFits(c: Context)
    requires c.Valid() && |c.text| - c.pos <= 4 && c.text[c.pos ..] == "null"[.. |c.text| - c.pos]
    ensures Peek(c) == 'n' && KeywordFits(c, "null")
  {
    assert Peek(c) == c.text[c.pos ..][0] == 'n';
    assert c.text[c.pos .. c.pos + (|c.text| - c.pos)] == c.text[c.pos ..];
  }
}
