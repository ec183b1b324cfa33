/**
 * `FileReader::parse` and `readValue` over the token array `load` built.
 * The token cursor is an index into that array; `Lexer::next` moves it one
 * step unless it already stands on the last token. The reader keeps the
 * C++'s loop structure, so it shares its leniency: a token that starts no
 * value yields the null pointer, a missing colon or closing bracket goes
 * unnoticed, and an array stops after an element that is itself an array.
 */
module Parser {
  import opened Wrappers
  import opened Values
  import Lexer

  /**
   * Why `parse` gives no tree: the lexer threw, or `readArray` recursed
   * without end on a `[` that is the last token.
   */
  datatype ParseError = Lex(e: Lexer.LexError) | Diverges

  /** A pointer read and the index of the token the cursor stands on afterwards. */
  datatype Read = Read(value: Ptr, at: nat)

  /** `Lexer::next`: one step forward unless on the last token. */
  function Advance(ts: seq<Lexer.Token>, i: nat): (k: nat)
    requires i < |ts|
    ensures k < |ts|
    ensures k == i + 1 <==> i < |ts| - 1
    ensures k != i + 1 ==> k == i
  {
    if i < |ts| - 1 then i + 1 else i
  }

  /** The token that `readValue` turns into a leaf node, if it is one. */
  function Leaf(t: Lexer.Token): Option<Value> {
    match t
    case Boolean(b) => Some(Boolean(b))
    case Null => Some(Null)
    case Number(literal) => Some(Number(literal))
    case String(s) => Some(String(s))
    case _ => None
  }

  /**
   * `readValue` with the cursor at `i`. A leaf consumes no cursor movement;
   * a token that starts no value yields the null pointer.
   */
  function ReadValue(ts: seq<Lexer.Token>, i: nat): (r: Result<Read, ParseError>)
    requires i < |ts|
    ensures r.Success? ==> i <= r.value.at < |ts|
    ensures r.Failure? ==> r.error == Diverges && ts[|ts| - 1] == Lexer.ArrayStart
    ensures Leaf(ts[i]).Some? ==> r == Success(Read(Ref(Leaf(ts[i]).value), i))
    ensures !ts[i].ObjectStart? && !ts[i].ArrayStart? && Leaf(ts[i]).None? ==> r == Success(Read(Nil, i))
    ensures r.Success? && ts[i].ArrayStart? ==>
              r.value.value.Ref? && r.value.value.target.Array? && |r.value.value.target.items| > 0
    ensures r.Success? && ts[i].ObjectStart? ==>
              r.value.value.Ref? && r.value.value.target.Object? && DistinctKeys(r.value.value.target.members)
    decreases |ts| - i, 3
  {
    match ts[i]
    case ObjectStart => ReadObject(ts, i)
    case ArrayStart => ReadArray(ts, i)
    case _ =>
      match Leaf(ts[i])
      case Some(v) => Success(Read(Ref(v), i))
      case None => Success(Read(Nil, i))
  }

  /** `readArray`: step over the `[` and read elements until the loop stops. */
  function ReadArray(ts: seq<Lexer.Token>, i: nat): (r: Result<Read, ParseError>)
    requires i < |ts| && ts[i] == Lexer.ArrayStart
    ensures r.Success? ==> i < r.value.at < |ts|
    ensures r.Failure? ==> r.error == Diverges && ts[|ts| - 1] == Lexer.ArrayStart
    ensures i == |ts| - 1 ==> r == Failure(Diverges)
    ensures r.Success? ==> r.value.value.Ref? && r.value.value.target.Array? && |r.value.value.target.items| > 0
    decreases |ts| - i, 2
  {
    if i == |ts| - 1 then Failure(Diverges) else ReadElements(ts, i + 1, [])
  }

  /** The first half of a turn of `readArray`'s loop: read a value at `j` and append it. */
  function ReadElements(ts: seq<Lexer.Token>, j: nat, items: seq<Ptr>): (r: Result<Read, ParseError>)
    requires j < |ts|
    ensures r.Success? ==> j <= r.value.at < |ts|
    ensures r.Failure? ==> r.error == Diverges && ts[|ts| - 1] == Lexer.ArrayStart
    ensures r.Success? ==>
              r.value.value.Ref? && r.value.value.target.Array? && items < r.value.value.target.items
    decreases |ts| - j, 4
  {
    var rv :- ReadValue(ts, j);
    AfterElement(ts, rv.at, items + [rv.value])
  }

  /**
   * The second half of a turn of `readArray`'s loop, with the cursor on the
   * last token of the value just read: stop on a `]`, at the last token, or
   * when the next token is not a comma; otherwise step over the comma.
   */
  function AfterElement(ts: seq<Lexer.Token>, k: nat, items: seq<Ptr>): (r: Result<Read, ParseError>)
    requires k < |ts|
    ensures r.Success? ==> k <= r.value.at < |ts|
    ensures r.Failure? ==> r.error == Diverges && ts[|ts| - 1] == Lexer.ArrayStart
    ensures r.Success? ==>
              r.value.value.Ref? && r.value.value.target.Array? && items <= r.value.value.target.items
    ensures ts[k] == Lexer.ArrayEnd || k == |ts| - 1 ==> r == Success(Read(Ref(Array(items)), k))
    decreases |ts| - k, 0
  {
    if ts[k] == Lexer.ArrayEnd || k == |ts| - 1 then Success(Read(Ref(Array(items)), k))
    else if ts[k + 1] != Lexer.Comma || k + 1 == |ts| - 1 then Success(Read(Ref(Array(items)), k + 1))
    else ReadElements(ts, k + 2, items)
  }

  /** `readObject`: step over the `{` and read members until the loop stops. */
  function ReadObject(ts: seq<Lexer.Token>, i: nat): (r: Result<Read, ParseError>)
    requires i < |ts| && ts[i] == Lexer.ObjectStart
    ensures r.Success? ==> i <= r.value.at < |ts|
    ensures r.Failure? ==> r.error == Diverges && ts[|ts| - 1] == Lexer.ArrayStart
    ensures r.Success? ==>
              r.value.value.Ref? && r.value.value.target.Object? && DistinctKeys(r.value.value.target.members)
    ensures i == |ts| - 1 ==> r == Success(Read(Ref(Object([])), i))
    decreases |ts| - i, 2
  {
    ReadMembers(ts, Advance(ts, i), Object([]))
  }

  /**
   * The start of a turn of `readObject`'s loop with the cursor at `j`. A
   * `}` or the last token ends the object. A string key goes on to its
   * value; any other token is skipped together with the token after it.
   */
  function ReadMembers(ts: seq<Lexer.Token>, j: nat, o: Value): (r: Result<Read, ParseError>)
    requires j < |ts| && o.Object?
    ensures r.Success? ==> j <= r.value.at < |ts|
    ensures r.Failure? ==> r.error == Diverges && ts[|ts| - 1] == Lexer.ArrayStart
    ensures r.Success? ==> r.value.value.Ref? && r.value.value.target.Object?
    ensures r.Success? && DistinctKeys(o.members) ==> DistinctKeys(r.value.value.target.members)
    ensures ts[j] == Lexer.ObjectEnd || j == |ts| - 1 ==> r == Success(Read(Ref(o), j))
    decreases |ts| - j, 1
  {
    if ts[j] == Lexer.ObjectEnd || j == |ts| - 1 then Success(Read(Ref(o), j))
    else if ts[j].String? then ReadMember(ts, j + 1, ts[j].s, o)
    else if j + 1 == |ts| - 1 then Success(Read(Ref(o), j + 1))
    else ReadMembers(ts, j + 2, o)
  }

  /**
   * After a key, with the cursor on the token after it: step over a colon
   * if there is one, read the value and insert it under the key.
   */
  function ReadMember(ts: seq<Lexer.Token>, k: nat, key: string, o: Value): (r: Result<Read, ParseError>)
    requires k < |ts| && o.Object?
    ensures r.Success? ==> k <= r.value.at < |ts|
    ensures r.Failure? ==> r.error == Diverges && ts[|ts| - 1] == Lexer.ArrayStart
    ensures r.Success? ==> r.value.value.Ref? && r.value.value.target.Object?
    ensures r.Success? && DistinctKeys(o.members) ==> DistinctKeys(r.value.value.target.members)
    decreases |ts| - k, 4
  {
    var v := if ts[k] == Lexer.Colon then Advance(ts, k) else k;
    var rv :- ReadValue(ts, v);
    AfterMember(ts, rv.at, Insert(o, key, rv.value))
  }

  /**
   * The end of a turn of `readObject`'s loop, with the cursor on the last
   * token of the value just inserted: stop at the last token or when the
   * next token is not a comma; otherwise step over the comma.
   */
  function AfterMember(ts: seq<Lexer.Token>, m: nat, o: Value): (r: Result<Read, ParseError>)
    requires m < |ts| && o.Object?
    ensures r.Success? ==> m <= r.value.at < |ts|
    ensures r.Failure? ==> r.error == Diverges && ts[|ts| - 1] == Lexer.ArrayStart
    ensures r.Success? ==> r.value.value.Ref? && r.value.value.target.Object?
    ensures r.Success? && DistinctKeys(o.members) ==> DistinctKeys(r.value.value.target.members)
    ensures m == |ts| - 1 ==> r == Success(Read(Ref(o), m))
    decreases |ts| - m, 0
  {
    if m == |ts| - 1 then Success(Read(Ref(o), m))
    else if ts[m + 1] != Lexer.Comma || m + 1 == |ts| - 1 then Success(Read(Ref(o), m + 1))
    else ReadMembers(ts, m + 2, o)
  }

  /**
   * `FileReader::parse` on the token array: no tokens give the null
   * pointer, otherwise the value read from the first token.
   */
  function ParseTokens(ts: seq<Lexer.Token>): (r: Result<Ptr, ParseError>)
    ensures |ts| == 0 ==> r == Success(Nil)
    ensures |ts| > 0 && Leaf(ts[0]).Some? ==> r == Success(Ref(Leaf(ts[0]).value))
    ensures r.Failure? ==> r.error == Diverges && |ts| > 0 && ts[|ts| - 1] == Lexer.ArrayStart
    ensures |ts| > 0 ==> (r.Success? <==> ReadValue(ts, 0).Success?)
  {
    if |ts| == 0 then Success(Nil)
    else
      var rv :- ReadValue(ts, 0);
      Success(rv.value)
  }

  /**
   * `FileReader::parse`: lex the whole text, then read one value. A lexer
   * exception propagates; tokens after the first value are ignored.
   */
  function Parse(content: string): (r: Result<Ptr, ParseError>)
    ensures Lexer.Load(content).Failure? ==> r == Failure(Lex(Lexer.Load(content).error))
    ensures Lexer.Load(content).Success? ==> r == ParseTokens(Lexer.Load(content).value)
    ensures |content| == 0 ==> r == Success(Nil)
  {
    match Lexer.Load(content)
    case Failure(e) => Failure(Lex(e))
    case Success(ts) => ParseTokens(ts)
  }
}
