/**
 * `toString` of every node kind. A String is rendered by decoding its bytes
 * as UTF-8 and re-encoding each code point (`escapeString`), falling back
 * to the raw bytes when decoding fails. Containers join their children's
 * texts with commas. A Number's text comes from `to_string` on a double,
 * which this model takes as the parameter `fmt`.
 */
module Serializer {
  import opened Wrappers
  import Hex
  import Utf8
  import opened Values
  import Lexer

  /** `parts` with `sep` between consecutive parts. */
  function Join<T>(parts: seq<seq<T>>, sep: seq<T>): (r: seq<T>)
    ensures |parts| == 0 ==> r == []
    ensures |parts| > 0 ==> parts[0] <= r
  {
    if |parts| == 0 then []
    else if |parts| == 1 then parts[0]
    else parts[0] + sep + Join(parts[1..], sep)
  }

  /**
   * What `escapeString` appends for one code point. ASCII is written raw
   * except that `"`, `\` and `/` vanish and a line feed becomes a form feed;
   * anything else becomes `\u` and at least four lower-case hex digits.
   */
  function EscapeChar(cp: int): (s: string)
    requires Utf8.IsScalar(cp)
    ensures '"' !in s
    ensures cp < 0x80 ==> |s| <= 1 && '\\' !in s
    ensures cp < 0x80 && s != "" ==> s[0] as int == cp || (cp == 0x0A && s == "\U{000C}")
    ensures cp < 0x80 && cp != '"' as int && cp != '\\' as int && cp != '/' as int ==> s != ""
    ensures cp == '"' as int || cp == '\\' as int || cp == '/' as int ==> s == ""
    ensures cp == 0x0A ==> s == "\U{000C}"
    ensures cp < 0x80 && (cp as char) !in "\"\\/\n" ==> s == [cp as char]
    ensures cp >= 0x80 ==>
              |s| >= 6 && s[..2] == "\\u" && Hex.AllHexDigits(s[2..]) && Hex.Value(s[2..]) == cp
    ensures cp >= 0x80 ==> Hex.LowerHex(s[2..])
    ensures 0x80 <= cp < 0x10000 ==> |s| == 6
    ensures 0x10000 <= cp ==> |s| >= 7
  {
    if cp < 0x80 then
      if cp == '"' as int || cp == '\\' as int || cp == '/' as int then ""
      else if cp == 0x0A then "\U{000C}"
      else [cp as char]
    else UnicodeEscape(cp)
  }

  /** `\\u` and the number in lower-case hex, at least four digits wide. */
  function UnicodeEscape(cp: nat): (s: string)
    ensures |s| >= 6 && s[..2] == "\\u" && '"' !in s
    ensures Hex.AllHexDigits(s[2..]) && Hex.LowerHex(s[2..]) && Hex.Value(s[2..]) == cp
    ensures cp < 0x10000 ==> |s| == 6
    ensures 0x10000 <= cp ==> |s| >= 7
  {
    var h := Hex.Format(cp, 4);
    var s := "\\u" + h;
    assert s[2..] == h;
    assert forall i :: 2 <= i < |s| ==> s[i] == h[i - 2];
    if cp < 0x10000 then Hex.FourDigits(cp); s
    else Hex.FiveDigits(cp); s
  }

  /** The body `escapeString` builds for a sequence of code points. */
  function Escape(cps: seq<int>): (s: string)
    requires Utf8.AllScalars(cps)
    ensures '"' !in s
  {
    if |cps| == 0 then "" else EscapeChar(cps[0]) + Escape(cps[1..])
  }

  /**
   * A backslash in the escaped body comes only from a `\\u` escape: ASCII
   * code points give a body no longer than the input and free of
   * backslashes, and any other code point puts one in.
   */
  lemma {:induction false} EscapeBackslash(cps: seq<int>)
    requires Utf8.AllScalars(cps)
    ensures (forall i :: 0 <= i < |cps| ==> cps[i] < 0x80) ==> |Escape(cps)| <= |cps| && '\\' !in Escape(cps)
    ensures (exists i :: 0 <= i < |cps| && cps[i] >= 0x80) ==> '\\' in Escape(cps)
  {
    if |cps| > 0 {
      EscapeBackslash(cps[1..]);
      assert forall i :: 1 <= i < |cps| ==> cps[i] == cps[1..][i - 1];
      var e := EscapeChar(cps[0]);
      if cps[0] >= 0x80 {
        assert e[0] == '\\';
      }
    }
  }

  /** Escaping distributes over concatenation: each code point is escaped on its own. */
  lemma {:induction false} EscapeAppend(a: seq<int>, b: seq<int>)
    requires Utf8.AllScalars(a) && Utf8.AllScalars(b)
    ensures Utf8.AllScalars(a + b) && Escape(a + b) == Escape(a) + Escape(b)
  {
    if |a| == 0 {
      assert a + b == b;
    } else {
      assert (a + b)[0] == a[0];
      assert (a + b)[1..] == a[1..] + b;
      EscapeAppend(a[1..], b);
    }
  }

  /** The text between the quotes of `String::toString`. */
  function StringBody(bytes: string): (s: string)
    ensures Utf8.Decode(bytes).Some? ==> '"' !in s
    ensures Utf8.Decode(bytes).None? ==> s == bytes
  {
    match Utf8.Decode(bytes)
    case Some(cps) => Escape(cps)
    case None => bytes
  }

  /** `String::toString`: the body between two double quotes. */
  function StringText(bytes: string): (s: string)
    ensures |s| >= 2 && s[0] == '"' && s[|s| - 1] == '"'
    ensures s[1..|s| - 1] == StringBody(bytes)
  {
    "\"" + StringBody(bytes) + "\""
  }

  /** `Array::toString` and `Object::toString` and the leaves, for a tree without null pointers. */
  function ToString(v: Value, fmt: string -> string): (s: string)
    requires Complete(v)
    ensures v.Array? ==> |s| >= 2 && s[0] == '[' && s[|s| - 1] == ']'
    ensures v.Object? ==> |s| >= 2 && s[0] == '{' && s[|s| - 1] == '}'
    ensures v.String? ==> |s| >= 2 && s[0] == '"' && s[|s| - 1] == '"'
  {
    match v
    case Object(ms) =>
      "{" + Join(seq(|ms|, i requires 0 <= i < |ms| => StringText(ms[i].key) + ":" + ToString(ms[i].value.target, fmt)), ",") + "}"
    case Array(items) =>
      "[" + Join(seq(|items|, i requires 0 <= i < |items| => ToString(items[i].target, fmt)), ",") + "]"
    case String(bytes) => StringText(bytes)
    case Number(literal) => fmt(literal)
    case Boolean(b) => if b then "true" else "false"
    case Null => "null"
  }

  /** The text `toString` writes for one token. */
  function Spell(t: Lexer.Token, fmt: string -> string): string {
    match t
    case ObjectStart => "{"
    case ObjectEnd => "}"
    case ArrayStart => "["
    case ArrayEnd => "]"
    case Colon => ":"
    case Comma => ","
    case Boolean(b) => if b then "true" else "false"
    case String(s) => StringText(s)
    case Number(literal) => fmt(literal)
    case Null => "null"
  }

  function SpellAll(ts: seq<Lexer.Token>, fmt: string -> string): string {
    if |ts| == 0 then "" else Spell(ts[0], fmt) + SpellAll(ts[1..], fmt)
  }

  /**
   * The token sequence `toString` spells: a leaf is one token, a container
   * its brackets around its children joined by commas, each member of an
   * object its key, a colon and its value.
   */
  function Tokens(v: Value): (ts: seq<Lexer.Token>)
    requires Complete(v)
    ensures |ts| > 0
  {
    match v
    case Object(ms) =>
      [Lexer.ObjectStart]
      + Join(seq(|ms|, i requires 0 <= i < |ms| => [Lexer.String(ms[i].key), Lexer.Colon] + Tokens(ms[i].value.target)), [Lexer.Comma])
      + [Lexer.ObjectEnd]
    case Array(items) =>
      [Lexer.ArrayStart]
      + Join(seq(|items|, i requires 0 <= i < |items| => Tokens(items[i].target)), [Lexer.Comma])
      + [Lexer.ArrayEnd]
    case String(bytes) => [Lexer.String(bytes)]
    case Number(literal) => [Lexer.Number(literal)]
    case Boolean(b) => [Lexer.Boolean(b)]
    case Null => [Lexer.Null]
  }

  /**
   * A container's tokens start with its opening bracket and end with its
   * closing one; a leaf is a single token. So the last token tells arrays
   * and objects apart from each other and from leaves.
   */
  lemma TokensEnds(v: Value)
    requires Complete(v)
    ensures v.Array? ==> Tokens(v)[0] == Lexer.ArrayStart && Tokens(v)[|Tokens(v)| - 1] == Lexer.ArrayEnd
    ensures v.Object? ==> Tokens(v)[0] == Lexer.ObjectStart && Tokens(v)[|Tokens(v)| - 1] == Lexer.ObjectEnd
    ensures !(v.Array? || v.Object?) ==> |Tokens(v)| == 1
    ensures Tokens(v)[|Tokens(v)| - 1] == Lexer.ArrayEnd <==> v.Array?
    ensures Tokens(v)[|Tokens(v)| - 1] == Lexer.ObjectEnd <==> v.Object?
  {
  }

  /** Spelling distributes over concatenation. */
  lemma {:induction false} SpellAppend(a: seq<Lexer.Token>, b: seq<Lexer.Token>, fmt: string -> string)
    ensures SpellAll(a + b, fmt) == SpellAll(a, fmt) + SpellAll(b, fmt)
  {
    if |a| == 0 {
      assert a + b == b;
    } else {
      assert (a + b)[0] == a[0];
      assert (a + b)[1..] == a[1..] + b;
      SpellAppend(a[1..], b, fmt);
    }
  }

  /** Spelling commutes with joining on commas. */
  lemma {:induction false} SpellJoin(parts: seq<seq<Lexer.Token>>, texts: seq<string>, fmt: string -> string)
    requires |texts| == |parts|
    requires forall i :: 0 <= i < |parts| ==> texts[i] == SpellAll(parts[i], fmt)
    ensures SpellAll(Join(parts, [Lexer.Comma]), fmt) == Join(texts, ",")
  {
    if |parts| == 1 {
    } else if |parts| > 1 {
      SpellJoin(parts[1..], texts[1..], fmt);
      SpellJoinStep(parts, texts, fmt);
    }
  }

  /** One step of `SpellJoin`: the first part, a comma, then the rest already joined. */
  lemma SpellJoinStep(parts: seq<seq<Lexer.Token>>, texts: seq<string>, fmt: string -> string)
    requires |texts| == |parts| > 1 && texts[0] == SpellAll(parts[0], fmt)
    requires SpellAll(Join(parts[1..], [Lexer.Comma]), fmt) == Join(texts[1..], ",")
    ensures SpellAll(Join(parts, [Lexer.Comma]), fmt) == Join(texts, ",")
  {
    var rest := Join(parts[1..], [Lexer.Comma]);
    var spelt := SpellAll(parts[0] + ([Lexer.Comma] + rest), fmt);
    SpellAppend(parts[0], [Lexer.Comma] + rest, fmt);
    SpellAppend([Lexer.Comma], rest, fmt);
    assert SpellAll([Lexer.Comma], fmt) == ",";
    assert spelt == texts[0] + ("," + Join(texts[1..], ","));
    JoinStep(parts, [Lexer.Comma]);
    JoinStep(texts, ",");
  }

  /** `Join` on two or more parts: the first part, the separator, then the rest joined. */
  lemma JoinStep<T>(parts: seq<seq<T>>, sep: seq<T>)
    requires |parts| > 1
    ensures Join(parts, sep) == parts[0] + (sep + Join(parts[1..], sep))
  {
    assert parts[0] + sep + Join(parts[1..], sep) == parts[0] + (sep + Join(parts[1..], sep));
  }

  /** The spelling of a bracketed sequence is the brackets around the spelling of its inside. */
  lemma SpellBracketed(open: Lexer.Token, inner: seq<Lexer.Token>, close: Lexer.Token, fmt: string -> string)
    ensures SpellAll([open] + inner + [close], fmt) == Spell(open, fmt) + SpellAll(inner, fmt) + Spell(close, fmt)
  {
    SpellAppend([open], inner, fmt);
    SpellAppend([open] + inner, [close], fmt);
  }

  /**
   * `toString` writes exactly the spelling of the token sequence of the
   * tree: the serializer and the token view agree.
   */
  lemma {:induction false} ToStringSpellsTokens(v: Value, fmt: string -> string)
    requires Complete(v)
    ensures ToString(v, fmt) == SpellAll(Tokens(v), fmt)
  {
    match v
    case Object(ms) =>
      var parts := seq(|ms|, i requires 0 <= i < |ms| => [Lexer.String(ms[i].key), Lexer.Colon] + Tokens(ms[i].value.target));
      var texts := seq(|ms|, i requires 0 <= i < |ms| => StringText(ms[i].key) + ":" + ToString(ms[i].value.target, fmt));
      forall i | 0 <= i < |ms|
        ensures texts[i] == SpellAll(parts[i], fmt)
      {
        ToStringSpellsTokens(ms[i].value.target, fmt);
        MemberSpells(ms[i].key, ms[i].value.target, fmt);
      }
      SpellJoin(parts, texts, fmt);
      SpellBracketed(Lexer.ObjectStart, Join(parts, [Lexer.Comma]), Lexer.ObjectEnd, fmt);
      assert Tokens(v) == [Lexer.ObjectStart] + Join(parts, [Lexer.Comma]) + [Lexer.ObjectEnd];
      assert ToString(v, fmt) == "{" + Join(texts, ",") + "}";
    case Array(items) =>
      var parts := seq(|items|, i requires 0 <= i < |items| => Tokens(items[i].target));
      var texts := seq(|items|, i requires 0 <= i < |items| => ToString(items[i].target, fmt));
      forall i | 0 <= i < |items|
        ensures texts[i] == SpellAll(parts[i], fmt)
      {
        ToStringSpellsTokens(items[i].target, fmt);
      }
      SpellJoin(parts, texts, fmt);
      SpellBracketed(Lexer.ArrayStart, Join(parts, [Lexer.Comma]), Lexer.ArrayEnd, fmt);
      assert Tokens(v) == [Lexer.ArrayStart] + Join(parts, [Lexer.Comma]) + [Lexer.ArrayEnd];
      assert ToString(v, fmt) == "[" + Join(texts, ",") + "]";
    case _ =>
  }

  lemma MemberSpells(key: string, v: Value, fmt: string -> string)
    requires Complete(v)
    ensures SpellAll([Lexer.String(key), Lexer.Colon] + Tokens(v), fmt) == StringText(key) + ":" + SpellAll(Tokens(v), fmt)
  {
    SpellAppend([Lexer.String(key), Lexer.Colon], Tokens(v), fmt);
    assert SpellAll([Lexer.String(key), Lexer.Colon], fmt) == StringText(key) + ":" by {
      assert [Lexer.String(key), Lexer.Colon][1..] == [Lexer.Colon];
    }
  }
}
