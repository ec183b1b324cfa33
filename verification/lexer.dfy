/**
 * The lexer (`Lexer::load` and its helpers): one pass over the buffer that
 * turns bytes into tokens. Every helper takes the parsing context and gives
 * back the context it leaves behind, exactly where the C++ leaves its
 * cursor, including the cases where the final step back fails.
 */
module Lexer {
  import opened Wrappers
  import opened ParsingContext
  import Hex
  import Utf8

  /** One lexical unit; each kind carries only its own payload. */
  datatype Token =
    | ObjectStart
    | ObjectEnd
    | ArrayStart
    | ArrayEnd
    | Colon
    | Comma
    | Boolean(b: bool)
    | String(s: string)
    | Number(literal: string)
    | Null

  /**
   * Why `load` stops: a `ParserException` reported at a row and column, or
   * an exception of a library conversion (`stoi`, `wstring_convert`) that
   * the lexer does not catch.
   */
  datatype LexError = ParserException(row: int, column: int) | ConversionFailure

  function Min(a: int, b: int): int {
    if a < b then a else b
  }

  /** `isspace` in the C locale. */
  predicate IsSpace(ch: char) {
    ch == ' ' || ch == '\t' || ch == '\n' || ch == '\U{000B}' || ch == '\U{000C}' || ch == '\r'
  }

  predicate IsDigit(ch: char) {
    '0' <= ch <= '9'
  }

  /** `isNumberic`: the bytes a number may contain; the exponent letter is lower-case only. */
  predicate IsNumeric(ch: char) {
    ch == '-' || ch == '+' || ch == 'e' || ch == '.' || IsDigit(ch)
  }

  /** The byte a one-letter escape stands for; unknown letters stand for themselves. */
  function Unescape(t: char): (r: char)
    ensures t in "bfnrt" ==> r as int < 0x20
    ensures t == 'b' ==> r == '\U{0008}'
    ensures t == 'f' ==> r == '\U{000C}'
    ensures t == 'n' ==> r == '\n'
    ensures t == 'r' ==> r == '\r'
    ensures t == 't' ==> r == '\t'
    ensures t !in "bfnrt" ==> r == t
  {
    match t
    case 'b' => '\U{0008}'
    case 'f' => '\U{000C}'
    case 'n' => '\n'
    case 'r' => '\r'
    case 't' => '\t'
    case _ => t
  }

  /**
   * `while (chrIndex++ < 4 && next()) strUnicode += peek();` with `k` bytes
   * still wanted: the bytes after the position, as many as the buffer has.
   */
  function ReadHex(c: Context, k: nat): (r: (string, Context))
    requires c.Valid()
    ensures |r.0| == Min(k, |c.text| - 1 - c.pos)
    ensures r.0 == c.text[c.pos + 1 .. c.pos + 1 + |r.0|]
    ensures r.1 == c.(pos := c.pos + |r.0|, column := c.column + |r.0|)
    decreases k
  {
    if k == 0 then ("", c)
    else
      var (moved, c1) := Next(c, 1);
      if moved then
        var (rest, c2) := ReadHex(c1, k - 1);
        ([Peek(c1)] + rest, c2)
      else ("", c)
  }

  /** A non-empty slice is its first element followed by the rest. */
  lemma SliceCons<T>(a: seq<T>, i: nat, k: nat)
    requires 1 <= k && i + k <= |a|
    ensures a[i .. i + k] == [a[i]] + a[i + 1 .. i + k]
  {
  }

  /** Appending a slice one element at a time. */
  lemma AppendSlice<T>(acc: seq<T>, s: seq<T>, i: nat, e: nat)
    requires i < e <= |s|
    ensures acc + [s[i]] + s[i + 1 .. e] == acc + s[i .. e]
  {
    SliceCons(s, i, e - i);
  }

  /** Facts every reader guarantees about the context it leaves behind. */
  predicate Follows(c: Context, d: Context) {
    d.Valid() && d.text == c.text && d.row == c.row
    && c.pos <= d.pos && d.column - c.column == d.pos - c.pos
  }

  /**
   * The loop of `readString`, entered with the cursor on the byte before the
   * next one to read and `acc` decoded so far. It stops on an unescaped `"`
   * or at the end of the buffer; an unterminated literal is not an error.
   */
  function StringLoop(c: Context, acc: string): (r: Result<(string, Context), LexError>)
    requires c.Valid()
    ensures r.Failure? ==> r.error == ConversionFailure
    ensures r.Success? ==> acc <= r.value.0 && Follows(c, r.value.1)
    ensures r.Success? ==> var d := r.value.1; d.pos == |d.text| - 1 || (d.pos > c.pos && d.text[d.pos] == '"')
    decreases |c.text| - c.pos
  {
    var (moved, c1) := Next(c, 1);
    if !moved then Success((acc, c))
    else
      var ch := Peek(c1);
      if ch == '\\' then
        var (moved2, c2) := Next(c1, 1);
        if !moved2 then StringLoop(c1, acc)
        else
          var t := Peek(c2);
          if t == 'u' then
            var (digits, c3) := ReadHex(c2, 4);
            match Hex.Stoi(digits)
            case None => Failure(ConversionFailure)
            case Some(v) =>
              if Utf8.IsScalar(v) then StringLoop(c3, acc + Utf8.Encode(v))
              else Failure(ConversionFailure)
          else StringLoop(c2, acc + [Unescape(t)])
      else if ch == '"' then Success((acc, c1))
      else StringLoop(c1, acc + [ch])
  }

  /** `readString`, entered on the opening quote. */
  function ReadString(c: Context): (r: Result<(string, Context), LexError>)
    requires c.Valid()
    ensures r.Failure? ==> r.error == ConversionFailure
    ensures r.Success? ==> Follows(c, r.value.1)
  {
    StringLoop(c, "")
  }

  /**
   * The offset of the first byte from `pos` that differs from
   * `pattern[idx..]`, looking only at the bytes both have.
   */
  function Mismatch(text: string, pos: nat, pattern: string, idx: nat): (j: nat)
    requires pos <= |text| && idx <= |pattern|
    ensures j <= Min(|pattern| - idx, |text| - pos)
    ensures text[pos .. pos + j] == pattern[idx .. idx + j]
    ensures j < Min(|pattern| - idx, |text| - pos) ==> text[pos + j] != pattern[idx + j]
    decreases |text| - pos
  {
    if pos == |text| || idx == |pattern| || text[pos] != pattern[idx] then 0
    else
      var j := 1 + Mismatch(text, pos + 1, pattern, idx + 1);
      SliceCons(text, pos, j);
      SliceCons(pattern, idx, j);
      j
  }

  /** No mismatch within the window means the window spells the pattern. */
  lemma NoMismatch(text: string, pos: nat, pattern: string, idx: nat)
    requires pos <= |text| && idx <= |pattern|
    ensures var w := Min(|pattern| - idx, |text| - pos);
      Mismatch(text, pos, pattern, idx) == w <==> text[pos .. pos + w] == pattern[idx .. idx + w]
  {
    var w := Min(|pattern| - idx, |text| - pos);
    var j := Mismatch(text, pos, pattern, idx);
    if j < w {
      assert text[pos .. pos + w][j] != pattern[idx .. idx + w][j];
    }
  }

  /**
   * The do-while of `readExpect`: compares the byte under the cursor with
   * `pattern[idx]` and moves on while the cursor can move and the pattern
   * has bytes left. It fails at the first differing byte, and otherwise
   * stops one byte past the pattern or on the last byte of the buffer.
   */
  function ExpectLoop(c: Context, pattern: string, idx: nat): (r: Result<Context, LexError>)
    requires c.Valid() && idx < |pattern|
    ensures var w := Min(|pattern| - idx, |c.text| - c.pos);
      var j := Mismatch(c.text, c.pos, pattern, idx);
      && (r.Success? <==> j == w)
      && (r.Failure? ==> r.error == ParserException(c.row, c.column + j))
    ensures r.Success? ==>
      var e := Min(c.pos + |pattern| - idx, |c.text| - 1);
      r.value == c.(pos := e, column := c.column + (e - c.pos))
    decreases |pattern| - idx
  {
    if c.text[c.pos] != pattern[idx] then Failure(ParserException(c.row, c.column))
    else
      var (moved, c1) := Next(c, 1);
      if moved && idx + 1 < |pattern| then ExpectLoop(c1, pattern, idx + 1)
      else Success(c1)
  }

  /** The loop started on the pattern's first byte succeeds exactly when the bytes that fit match. */
  lemma ExpectFromStart(c: Context, pattern: string)
    requires c.Valid() && |pattern| > 0
    ensures var w := Min(|pattern|, |c.text| - c.pos);
      ExpectLoop(c, pattern, 0).Success? <==> c.text[c.pos .. c.pos + w] == pattern[..w]
  {
    NoMismatch(c.text, c.pos, pattern, 0);
    assert pattern[0 .. 0 + Min(|pattern|, |c.text| - c.pos)] == pattern[.. Min(|pattern|, |c.text| - c.pos)];
  }

  /**
   * `readExpect`: matches a keyword, then steps back onto its last byte.
   * The step back fails when the cursor sits on the last byte of the buffer,
   * which happens when exactly one byte follows the keyword.
   */
  function ReadExpect(c: Context, pattern: string): (r: Result<Context, LexError>)
    requires c.Valid() && |pattern| > 0
    ensures var w := Min(|pattern|, |c.text| - c.pos);
      r.Success? <==> c.text[c.pos .. c.pos + w] == pattern[..w]
    ensures r.Failure? ==>
      r.error == ParserException(c.row, c.column + Mismatch(c.text, c.pos, pattern, 0))
    ensures r.Success? ==> Follows(c, r.value)
    ensures r.Success? ==>
      r.value.pos == if c.pos + |pattern| < |c.text| - 1 then c.pos + |pattern| - 1 else |c.text| - 1
  {
    ExpectFromStart(c, pattern);
    var c1 :- ExpectLoop(c, pattern, 0);
    assert c1.pos == Min(c.pos + |pattern|, |c.text| - 1) && c1.text == c.text && c1.row == c.row;
    Success(Next(c1, -1).1)
  }

  /** The end of the run of numeric bytes that starts at `pos` (maximal munch). */
  function RunEnd(text: string, pos: nat): (e: nat)
    requires pos <= |text|
    ensures pos <= e <= |text|
    ensures forall i :: pos <= i < e ==> IsNumeric(text[i])
    ensures e == |text| || !IsNumeric(text[e])
    decreases |text| - pos
  {
    if pos < |text| && IsNumeric(text[pos]) then RunEnd(text, pos + 1) else pos
  }

  /**
   * The do-while of `readNumber`: appends numeric bytes while the cursor can
   * move. It collects the whole run and leaves the cursor on the byte after
   * it, or on the last byte of the buffer when the run reaches the end.
   */
  function NumberLoop(c: Context, acc: string): (r: (string, Context))
    requires c.Valid()
    ensures var e := RunEnd(c.text, c.pos); var d := Min(e, |c.text| - 1);
      r.0 == acc + c.text[c.pos .. e] && r.1 == c.(pos := d, column := c.column + (d - c.pos))
    decreases |c.text| - c.pos
  {
    var ch := Peek(c);
    if IsNumeric(ch) then
      var (moved, c1) := Next(c, 1);
      AppendSlice(acc, c.text, c.pos, RunEnd(c.text, c.pos));
      if moved then NumberLoop(c1, acc + [ch]) else (acc + [ch], c1)
    else (acc, c)
  }

  /**
   * Whether `stod` converts a prefix of a numeric run: after an optional
   * sign there must be a digit, or a '.' followed by a digit.
   */
  predicate StodAccepts(s: string) {
    var t := if |s| > 0 && (s[0] == '+' || s[0] == '-') then s[1..] else s;
    |t| > 0 && (IsDigit(t[0]) || (|t| > 1 && t[0] == '.' && IsDigit(t[1])))
  }

  /**
   * `readNumber`, entered on a numeric byte: the literal text of the run and
   * the cursor stepped back onto its last byte. The step back fails when the
   * byte after the run is the last one of the buffer.
   */
  function ReadNumber(c: Context): (r: Result<(string, Context), LexError>)
    requires c.Valid() && IsNumeric(Peek(c))
    ensures r.Success? <==> StodAccepts(c.text[c.pos .. RunEnd(c.text, c.pos)])
    ensures r.Success? ==>
      var e := RunEnd(c.text, c.pos);
      && r.value.0 == c.text[c.pos .. e] && |r.value.0| > 0
      && Follows(c, r.value.1)
      && r.value.1.pos == if e < |c.text| - 1 then e - 1 else |c.text| - 1
    ensures r.Failure? ==>
      var e := RunEnd(c.text, c.pos);
      var p := if e < |c.text| - 1 then e - 1 else |c.text| - 1;
      r.error == ParserException(c.row, c.column + (p - c.pos))
  {
    var (lit, c1) := NumberLoop(c, "");
    var e := RunEnd(c.text, c.pos);
    assert lit == c.text[c.pos .. e] && c1.pos == Min(e, |c.text| - 1) && c1.column - c.column == c1.pos - c.pos;
    var c2 := Next(c1, -1).1;
    assert c2.pos == (if e < |c.text| - 1 then e - 1 else |c.text| - 1) && c2.column - c.column == c2.pos - c.pos;
    if StodAccepts(lit) then Success((lit, c2)) else Failure(ParserException(c2.row, c2.column))
  }

  /** The token each structural byte stands for. */
  function Punctuation(ch: char): Option<Token> {
    match ch
    case '{' => Some(ObjectStart)
    case '}' => Some(ObjectEnd)
    case '[' => Some(ArrayStart)
    case ']' => Some(ArrayEnd)
    case ':' => Some(Colon)
    case ',' => Some(Comma)
    case _ => None
  }

  /** Bytes the lexer knows what to do with; any other byte is an error. */
  predicate Recognised(ch: char) {
    IsSpace(ch) || Punctuation(ch).Some? || ch == '"' || ch == 't' || ch == 'f' || ch == 'n' || IsNumeric(ch)
  }

  /** Whether the bytes from the position that fit in the buffer spell the start of `keyword`. */
  predicate KeywordFits(c: Context, keyword: string)
    requires c.Valid()
  {
    var w := Min(|keyword|, |c.text| - c.pos);
    c.text[c.pos .. c.pos + w] == keyword[..w]
  }

  /** The branch of `load` for `true`, `false` and `null`: match the keyword, push its token. */
  function ScanKeyword(c: Context, keyword: string, t: Token): (r: Result<(Option<Token>, Context), LexError>)
    requires c.Valid() && |keyword| > 0
    ensures r.Success? <==> KeywordFits(c, keyword)
    ensures r.Success? ==> r.value.0 == Some(t) && Follows(c, r.value.1)
  {
    var c1 :- ReadExpect(c, keyword);
    Success((Some(t), c1))
  }

  /** The branch of `load` for a numeric byte: read the run, push its literal. */
  function ScanNumber(c: Context): (r: Result<(Option<Token>, Context), LexError>)
    requires c.Valid() && IsNumeric(Peek(c))
    ensures r.Success? <==> StodAccepts(c.text[c.pos .. RunEnd(c.text, c.pos)])
    ensures r.Success? ==> r.value.0 == Some(Number(c.text[c.pos .. RunEnd(c.text, c.pos)])) && Follows(c, r.value.1)
    ensures r.Failure? ==>
      var e := RunEnd(c.text, c.pos);
      var p := if e < |c.text| - 1 then e - 1 else |c.text| - 1;
      r.error == ParserException(c.row, c.column + (p - c.pos))
  {
    var num :- ReadNumber(c);
    Success((Some(Number(num.0)), num.1))
  }

  /**
   * One pass through the body of the do-while in `load`: the token the byte
   * under the cursor yields, if any, and the cursor the body leaves.
   */
  function Scan(c: Context): (r: Result<(Option<Token>, Context), LexError>)
    requires c.Valid()
    ensures r.Success? ==> r.value.1.Valid() && r.value.1.text == c.text && r.value.1.pos >= c.pos
    ensures (r.Success? && r.value.0.None?) <==> IsSpace(Peek(c))
    ensures IsSpace(Peek(c)) ==>
      && r.Success? && r.value.1.pos == c.pos
      && r.value.1.row == c.row + (if Peek(c) == '\n' then 1 else 0)
      && r.value.1.column == (if Peek(c) == '\n' then 0 else c.column)
    ensures Punctuation(Peek(c)).Some? ==> r == Success((Punctuation(Peek(c)), c))
    ensures !Recognised(Peek(c)) ==> r == Failure(ParserException(c.row, c.column))
  {
    var ch := Peek(c);
    if IsSpace(ch) then Success((None, if ch == '\n' then NextRow(c) else c))
    else if Punctuation(ch).Some? then Success((Punctuation(ch), c))
    else if ch == '"' then
      var lit :- ReadString(c);
      Success((Some(String(lit.0)), lit.1))
    else if ch == 't' || ch == 'f' then ScanKeyword(c, if ch == 't' then "true" else "false", Boolean(ch == 't'))
    else if ch == 'n' then ScanKeyword(c, "null", Null)
    else if IsNumeric(ch) then ScanNumber(c)
    else Failure(ParserException(c.row, c.column))
  }

  /** The do-while of `load` from the cursor on, with `acc` the tokens pushed so far. */
  function TokenLoop(c: Context, acc: seq<Token>): (r: Result<seq<Token>, LexError>)
    requires c.Valid()
    ensures r.Success? ==> acc <= r.value && |r.value| - |acc| <= |c.text| - c.pos
    decreases |c.text| - c.pos
  {
    var step :- Scan(c);
    var acc' := match step.0 case Some(t) => acc + [t] case None => acc;
    var (moved, c') := Next(step.1, 1);
    if moved then TokenLoop(c', acc') else Success(acc')
  }

  /**
   * `Lexer::load`: the tokens of the whole buffer. An empty buffer yields no
   * tokens (the C++ returns false), and no buffer yields more tokens than it
   * has bytes.
   */
  function Load(content: string): (r: Result<seq<Token>, LexError>)
    ensures |content| == 0 ==> r == Success([])
    ensures r.Success? ==> |r.value| <= |content|
  {
    if |content| == 0 then Success([]) else TokenLoop(Start(content), [])
  }
}
