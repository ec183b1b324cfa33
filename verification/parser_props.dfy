/**
 * What `readValue` reads back from the token sequence `toString` spells.
 * The reader returns the tree it was given whenever the tree avoids the
 * shapes the reader cannot produce or cannot reproduce: null pointers,
 * empty arrays (read back as one null element), arrays directly inside
 * arrays (the outer array stops after the inner one) and repeated keys
 * (the last write wins).
 */
module ParserProperties {
  import opened Wrappers
  import opened Values
  import Lexer
  import opened Serializer
  import opened Parser

  /**
   * A tree the reader reproduces: no null pointers, no empty arrays, no
   * array directly inside an array, and distinct keys in every object.
   */
  predicate Readable(v: Value) {
    Complete(v) && Shaped(v)
  }

  predicate Shaped(v: Value) {
    match v
    case Object(ms) =>
      DistinctKeys(ms) && forall i :: 0 <= i < |ms| ==> ms[i].value.Ref? && Shaped(ms[i].value.target)
    case Array(items) =>
      |items| > 0
      && forall i :: 0 <= i < |items| ==> items[i].Ref? && !items[i].target.Array? && Shaped(items[i].target)
    case _ => true
  }

  /** The token sequences of an array's elements. */
  function ItemParts(a: Value): (ps: seq<seq<Lexer.Token>>)
    requires a.Array? && Readable(a)
    ensures |ps| == |a.items|
    ensures forall i :: 0 <= i < |ps| ==> ps[i] == Tokens(a.items[i].target)
  {
    seq(|a.items|, i requires 0 <= i < |a.items| => Tokens(a.items[i].target))
  }

  /** The token sequences of an object's members: key, colon, value. */
  function MemberParts(o: Value): (ps: seq<seq<Lexer.Token>>)
    requires o.Object? && Readable(o)
    ensures |ps| == |o.members|
    ensures forall i :: 0 <= i < |ps| ==>
              ps[i] == [Lexer.String(o.members[i].key), Lexer.Colon] + Tokens(o.members[i].value.target)
  {
    seq(|o.members|, i requires 0 <= i < |o.members| =>
      [Lexer.String(o.members[i].key), Lexer.Colon] + Tokens(o.members[i].value.target))
  }

  /** The tokens of an array from its `k`-th element to its `]`. */
  function ElementsFrom(a: Value, k: nat): seq<Lexer.Token>
    requires a.Array? && Readable(a) && k < |a.items|
    decreases |a.items| - k
  {
    Tokens(a.items[k].target)
    + if k + 1 == |a.items| then [Lexer.ArrayEnd] else [Lexer.Comma] + ElementsFrom(a, k + 1)
  }

  /** The tokens of an object from its `k`-th key to its `}`. */
  function MembersFrom(o: Value, k: nat): seq<Lexer.Token>
    requires o.Object? && Readable(o) && k < |o.members|
    decreases |o.members| - k
  {
    [Lexer.String(o.members[k].key), Lexer.Colon] + Tokens(o.members[k].value.target)
    + if k + 1 == |o.members| then [Lexer.ObjectEnd] else [Lexer.Comma] + MembersFrom(o, k + 1)
  }

  /** Joining the parts from the `k`-th on: the `k`-th part, then a separator and the rest. */
  lemma JoinFrom<T>(ps: seq<seq<T>>, k: nat, sep: seq<T>)
    requires k < |ps|
    ensures k + 1 == |ps| ==> Join(ps[k..], sep) == ps[k]
    ensures k + 1 < |ps| ==> Join(ps[k..], sep) == ps[k] + sep + Join(ps[k + 1..], sep)
  {
    assert ps[k..][0] == ps[k];
    if k + 1 < |ps| {
      assert ps[k..][1..] == ps[k + 1..];
    } else {
      assert ps[k..] == [ps[k]];
    }
  }

  lemma {:induction false} ElementsFromJoin(a: Value, k: nat)
    requires a.Array? && Readable(a) && k < |a.items|
    ensures ElementsFrom(a, k) == Join(ItemParts(a)[k..], [Lexer.Comma]) + [Lexer.ArrayEnd]
    decreases |a.items| - k
  {
    var ps := ItemParts(a);
    JoinFrom(ps, k, [Lexer.Comma]);
    if k + 1 < |a.items| {
      ElementsFromJoin(a, k + 1);
    }
  }

  lemma {:induction false} MembersFromJoin(o: Value, k: nat)
    requires o.Object? && Readable(o) && k < |o.members|
    ensures MembersFrom(o, k) == Join(MemberParts(o)[k..], [Lexer.Comma]) + [Lexer.ObjectEnd]
    decreases |o.members| - k
  {
    var ps := MemberParts(o);
    JoinFrom(ps, k, [Lexer.Comma]);
    if k + 1 < |o.members| {
      MembersFromJoin(o, k + 1);
    }
  }

  /** A readable array's tokens are `[`, then its elements joined by commas, then `]`. */
  lemma ArrayTokens(a: Value)
    requires a.Array? && Readable(a)
    ensures Tokens(a) == [Lexer.ArrayStart] + ElementsFrom(a, 0)
  {
    ElementsFromJoin(a, 0);
    assert ItemParts(a)[0..] == ItemParts(a);
  }

  /** A nonempty object's tokens are `{`, then its members joined by commas, then `}`. */
  lemma ObjectTokens(o: Value)
    requires o.Object? && Readable(o) && |o.members| > 0
    ensures Tokens(o) == [Lexer.ObjectStart] + MembersFrom(o, 0)
  {
    MembersFromJoin(o, 0);
    assert MemberParts(o)[0..] == MemberParts(o);
  }

  /** `ts` holds `w` starting at index `j`. */
  predicate At(ts: seq<Lexer.Token>, j: nat, w: seq<Lexer.Token>)
    decreases |w|
  {
    j + |w| <= |ts| && (|w| == 0 || (ts[j] == w[0] && At(ts, j + 1, w[1..])))
  }

  /** The token at index `y` is the `x`-th of the held sequence. */
  lemma {:induction false} AtIndex(ts: seq<Lexer.Token>, j: nat, w: seq<Lexer.Token>, x: nat, y: nat)
    requires At(ts, j, w) && x < |w| && y == j + x
    ensures ts[y] == w[x]
    decreases x
  {
    if x > 0 {
      AtIndex(ts, j + 1, w[1..], x - 1, y);
    }
  }

  /** Both halves of a concatenation held at `j` are held, the second at `j2`. */
  lemma {:induction false} AtSplit(ts: seq<Lexer.Token>, j: nat, a: seq<Lexer.Token>, b: seq<Lexer.Token>, j2: nat)
    requires At(ts, j, a + b) && j2 == j + |a|
    ensures At(ts, j, a) && At(ts, j2, b)
    decreases |a|
  {
    if |a| == 0 {
      assert a + b == b;
    } else {
      assert (a + b)[0] == a[0];
      assert (a + b)[1..] == a[1..] + b;
      AtSplit(ts, j + 1, a[1..], b, j2);
    }
  }

  /** A sequence holds its own suffixes. */
  lemma {:induction false} AtSuffix(ts: seq<Lexer.Token>, j: nat)
    requires j <= |ts|
    ensures At(ts, j, ts[j..])
    decreases |ts| - j
  {
    if j < |ts| {
      assert ts[j..][1..] == ts[j + 1..];
      AtSuffix(ts, j + 1);
    }
  }

  /** A tree's last token closes an array exactly when the tree is an array. */
  lemma LastToken(ts: seq<Lexer.Token>, j: nat, v: Value, m: nat)
    requires Complete(v) && At(ts, j, Tokens(v)) && m == j + |Tokens(v)| - 1
    ensures ts[m] == Lexer.ArrayEnd <==> v.Array?
  {
    TokensEnds(v);
    AtIndex(ts, j, Tokens(v), |Tokens(v)| - 1, m);
  }

  /**
   * Round trip: on a readable tree, `readValue` at the first of its tokens
   * gives the tree back and leaves the cursor on its last token, whatever
   * follows.
   */
  lemma {:induction false} ReadValueTokens(v: Value, ts: seq<Lexer.Token>, i: nat)
    requires Readable(v)
    requires At(ts, i, Tokens(v))
    ensures ReadValue(ts, i) == Success(Read(Ref(v), i + |Tokens(v)| - 1))
    decreases v, 3
  {
    match v
    case Array(_) => ReadArrayTokens(v, ts, i);
    case Object(_) => ReadObjectTokens(v, ts, i);
    case _ => AtIndex(ts, i, Tokens(v), 0, i);
  }

  lemma {:induction false} ReadArrayTokens(a: Value, ts: seq<Lexer.Token>, i: nat)
    requires a.Array? && Readable(a)
    requires At(ts, i, Tokens(a))
    ensures ReadArray(ts, i) == Success(Read(Ref(a), i + |Tokens(a)| - 1))
    decreases a, 1
  {
    ArrayTokens(a);
    AtSplit(ts, i, [Lexer.ArrayStart], ElementsFrom(a, 0), i + 1);
    assert a.items[..0] == [];
    ReadElementsTokens(a, 0, ts, i + 1, i + |Tokens(a)| - 1);
    ArrayStep(ts, i);
  }

  lemma {:induction false} ReadObjectTokens(o: Value, ts: seq<Lexer.Token>, i: nat)
    requires o.Object? && Readable(o)
    requires At(ts, i, Tokens(o))
    ensures ReadObject(ts, i) == Success(Read(Ref(o), i + |Tokens(o)| - 1))
    decreases o, 2
  {
    ObjectMembersTokens(o, ts, i);
    assert ReadObject(ts, i) == ReadMembers(ts, i + 1, Object([]));
  }

  /** The empty object's `}` follows its `{` directly, and the loop stops there. */
  lemma {:induction false} EmptyObjectTokens(o: Value, ts: seq<Lexer.Token>, i: nat)
    requires o == Object([])
    requires At(ts, i, Tokens(o))
    ensures i + 1 < |ts| && ReadMembers(ts, i + 1, Object([])) == Success(Read(Ref(o), i + |Tokens(o)| - 1))
  {
    assert Tokens(o) == [Lexer.ObjectStart, Lexer.ObjectEnd];
    AtIndex(ts, i, Tokens(o), 1, i + 1);
  }

  /** After the `{`, the loop started on an empty object reads the members back and stops on the `}`. */
  lemma {:induction false} ObjectMembersTokens(o: Value, ts: seq<Lexer.Token>, i: nat)
    requires o.Object? && Readable(o)
    requires At(ts, i, Tokens(o))
    ensures i + 1 < |ts| && ReadMembers(ts, i + 1, Object([])) == Success(Read(Ref(o), i + |Tokens(o)| - 1))
    decreases o, 1
  {
    if |o.members| == 0 {
      EmptyObjectTokens(o, ts, i);
    } else {
      FirstMemberTokens(o, ts, i);
    }
  }

  /** A non-empty object: its members' tokens follow the `{`, and the loop reads them all. */
  lemma {:induction false} FirstMemberTokens(o: Value, ts: seq<Lexer.Token>, i: nat)
    requires o.Object? && Readable(o) && |o.members| > 0
    requires At(ts, i, Tokens(o))
    ensures i + 1 < |ts| && ReadMembers(ts, i + 1, Object([])) == Success(Read(Ref(o), i + |Tokens(o)| - 1))
    decreases o, 0, |o.members|, 3
  {
    ObjectTokens(o);
    AtSplit(ts, i, [Lexer.ObjectStart], MembersFrom(o, 0), i + 1);
    ReadMembersTokens(o, 0, ts, i + 1, i + |Tokens(o)| - 1);
    assert o.members[..0] == [];
  }

  /**
   * The elements from the `k`-th on: `readArray`'s loop, started on the
   * `k`-th element's first token with the earlier elements read, finishes
   * the array on its `]`.
   */
  lemma {:induction false} ReadElementsTokens(a: Value, k: nat, ts: seq<Lexer.Token>, j: nat, end: nat)
    requires a.Array? && Readable(a) && k < |a.items|
    requires At(ts, j, ElementsFrom(a, k)) && end + 1 == j + |ElementsFrom(a, k)|
    ensures ReadElements(ts, j, a.items[..k]) == Success(Read(Ref(a), end))
    decreases a, 0, |a.items| - k, 1
  {
    if k + 1 == |a.items| {
      var m := LastElementLayout(a, k, ts, j);
      LastElementTokens(a, k, ts, j, m);
    } else {
      var m := NextElementLayout(a, k, ts, j);
      NextElementTokens(a, k, ts, j, m);
      ReadElementsTokens(a, k + 1, ts, m + 2, end);
    }
  }

  /** The last element, whose tokens end at `m`, is followed by the `]`, where the loop stops. */
  lemma {:induction false} LastElementTokens(a: Value, k: nat, ts: seq<Lexer.Token>, j: nat, m: nat)
    requires a.Array? && Readable(a) && k + 1 == |a.items|
    requires Readable(a.items[k].target) && At(ts, j, Tokens(a.items[k].target))
    requires m == j + |Tokens(a.items[k].target)| - 1
    requires m + 1 < |ts| && ts[m] != Lexer.ArrayEnd && ts[m + 1] == Lexer.ArrayEnd
    ensures ReadElements(ts, j, a.items[..k]) == Success(Read(Ref(a), m + 1))
    decreases a, 0, |a.items| - k, 0
  {
    ReadValueTokens(a.items[k].target, ts, j);
    ElementThenEnd(ts, j, a.items[..k], a.items[k], m);
    assert a.items[..k] + [a.items[k]] == a.items;
  }

  /**
   * An element other than the last, whose tokens end at `m`, is followed by
   * a comma, which the loop steps over: it continues after the comma with
   * one more element read.
   */
  lemma {:induction false} NextElementTokens(a: Value, k: nat, ts: seq<Lexer.Token>, j: nat, m: nat)
    requires a.Array? && Readable(a) && k + 1 < |a.items|
    requires Readable(a.items[k].target) && At(ts, j, Tokens(a.items[k].target))
    requires m == j + |Tokens(a.items[k].target)| - 1
    requires m + 2 < |ts| && ts[m] != Lexer.ArrayEnd && ts[m + 1] == Lexer.Comma
    ensures ReadElements(ts, j, a.items[..k]) == ReadElements(ts, m + 2, a.items[..k + 1])
    decreases a, 0, |a.items| - k, 0
  {
    ReadValueTokens(a.items[k].target, ts, j);
    ElementThenCommaAt(ts, j, a.items, k, m);
  }

  /**
   * The members from the `k`-th on: `readObject`'s loop, started on the
   * `k`-th key with the earlier members inserted, finishes the object on
   * its `}`.
   */
  lemma {:induction false} ReadMembersTokens(o: Value, k: nat, ts: seq<Lexer.Token>, j: nat, end: nat)
    requires o.Object? && Readable(o) && k < |o.members|
    requires At(ts, j, MembersFrom(o, k)) && end + 1 == j + |MembersFrom(o, k)|
    ensures ReadMembers(ts, j, Object(o.members[..k])) == Success(Read(Ref(o), end))
    decreases o, 0, |o.members| - k, 2
  {
    if k + 1 == |o.members| {
      LastMemberRead(o, k, ts, j, end);
    } else {
      var m := NextMemberRead(o, k, ts, j, end);
      ReadMembersTokens(o, k + 1, ts, m + 2, end);
    }
  }

  /** A member other than the last: the loop reads it, steps over the comma and goes on with the rest. */
  lemma {:induction false} NextMemberRead(o: Value, k: nat, ts: seq<Lexer.Token>, j: nat, end: nat) returns (m: nat)
    requires o.Object? && Readable(o) && k + 1 < |o.members|
    requires At(ts, j, MembersFrom(o, k)) && end + 1 == j + |MembersFrom(o, k)|
    ensures m + 2 < |ts| && At(ts, m + 2, MembersFrom(o, k + 1)) && end + 1 == m + 2 + |MembersFrom(o, k + 1)|
    ensures ReadMembers(ts, j, Object(o.members[..k])) == ReadMembers(ts, m + 2, Object(o.members[..k + 1]))
    decreases o, 0, |o.members| - k, 1
  {
    m := NextMemberLayout(o, k, ts, j);
    NextMemberTokens(o, k, ts, j, m);
  }

  /** The last member: the loop reads it and stops on the object's `}`. */
  lemma {:induction false} LastMemberRead(o: Value, k: nat, ts: seq<Lexer.Token>, j: nat, end: nat)
    requires o.Object? && Readable(o) && k + 1 == |o.members|
    requires At(ts, j, MembersFrom(o, k)) && end + 1 == j + |MembersFrom(o, k)|
    ensures ReadMembers(ts, j, Object(o.members[..k])) == Success(Read(Ref(o), end))
    decreases o, 0, |o.members| - k, 1
  {
    var m := LastMemberLayout(o, k, ts, j);
    LastMemberTokens(o, k, ts, j, m);
  }

  /** The last member, whose value's tokens end at `m`, is followed by the `}`, where the loop stops. */
  lemma {:induction false} LastMemberTokens(o: Value, k: nat, ts: seq<Lexer.Token>, j: nat, m: nat)
    requires o.Object? && Readable(o) && k + 1 == |o.members|
    requires o.members[k].value.Ref? && Readable(o.members[k].value.target)
    requires At(ts, j + 2, Tokens(o.members[k].value.target))
    requires m == j + 2 + |Tokens(o.members[k].value.target)| - 1
    requires m + 1 < |ts| && ts[j] == Lexer.String(o.members[k].key) && ts[j + 1] == Lexer.Colon
    requires ts[m + 1] == Lexer.ObjectEnd
    ensures ReadMembers(ts, j, Object(o.members[..k])) == Success(Read(Ref(o), m + 1))
    decreases o, 0, |o.members| - k, 0
  {
    ReadValueTokens(o.members[k].value.target, ts, j + 2);
    MemberThenEnd(ts, j, Object(o.members[..k]), o.members[k].key, o.members[k].value, m);
    InsertNext(o.members, k);
    assert o.members[..k + 1] == o.members;
  }

  /**
   * A member other than the last, whose value's tokens end at `m`, is
   * followed by a comma, which the loop steps over: it continues after the
   * comma with one more member inserted.
   */
  lemma {:induction false} NextMemberTokens(o: Value, k: nat, ts: seq<Lexer.Token>, j: nat, m: nat)
    requires o.Object? && Readable(o) && k + 1 < |o.members|
    requires o.members[k].value.Ref? && Readable(o.members[k].value.target)
    requires At(ts, j + 2, Tokens(o.members[k].value.target))
    requires m == j + 2 + |Tokens(o.members[k].value.target)| - 1
    requires m + 2 < |ts| && ts[j] == Lexer.String(o.members[k].key) && ts[j + 1] == Lexer.Colon
    requires ts[m + 1] == Lexer.Comma
    ensures ReadMembers(ts, j, Object(o.members[..k])) == ReadMembers(ts, m + 2, Object(o.members[..k + 1]))
    decreases o, 0, |o.members| - k, 0
  {
    ReadValueTokens(o.members[k].value.target, ts, j + 2);
    MemberThenComma(ts, j, Object(o.members[..k]), o.members[k].key, o.members[k].value, m);
    InsertNext(o.members, k);
  }


  /** A key and a colon, then `w`. */
  lemma HeadLayout(ts: seq<Lexer.Token>, j: nat, key: string, w: seq<Lexer.Token>)
    requires At(ts, j, [Lexer.String(key), Lexer.Colon] + w)
    ensures j + 1 < |ts| && ts[j] == Lexer.String(key) && ts[j + 1] == Lexer.Colon && At(ts, j + 2, w)
  {
    var head := [Lexer.String(key), Lexer.Colon];
    AtSplit(ts, j, head, w, j + 2);
    AtIndex(ts, j, head, 0, j);
    AtIndex(ts, j, head, 1, j + 1);
  }

  /** A value's tokens ending at `m`, then a closing token at `m + 1`. */
  lemma CloseLayout(ts: seq<Lexer.Token>, i: nat, w: seq<Lexer.Token>, close: Lexer.Token, m: nat)
    requires At(ts, i, w + [close]) && |w| > 0 && m == i + |w| - 1
    ensures At(ts, i, w) && m + 1 < |ts| && ts[m + 1] == close
  {
    AtSplit(ts, i, w, [close], m + 1);
    AtIndex(ts, m + 1, [close], 0, m + 1);
  }

  /** A value's tokens ending at `m`, a comma at `m + 1`, then `rest` from `m + 2`. */
  lemma CommaLayout(ts: seq<Lexer.Token>, i: nat, w: seq<Lexer.Token>, rest: seq<Lexer.Token>, m: nat)
    requires At(ts, i, w + ([Lexer.Comma] + rest)) && |w| > 0 && |rest| > 0 && m == i + |w| - 1
    ensures At(ts, i, w) && m + 2 < |ts| && ts[m + 1] == Lexer.Comma && At(ts, m + 2, rest)
  {
    AtSplit(ts, i, w, [Lexer.Comma] + rest, m + 1);
    AtSplit(ts, m + 1, [Lexer.Comma], rest, m + 2);
    AtIndex(ts, m + 1, [Lexer.Comma], 0, m + 1);
  }

  /** Where the last element's tokens and the `]` after them sit. */
  lemma LastElementLayout(a: Value, k: nat, ts: seq<Lexer.Token>, j: nat) returns (m: nat)
    requires a.Array? && Readable(a) && k + 1 == |a.items|
    requires At(ts, j, ElementsFrom(a, k))
    ensures Readable(a.items[k].target) && At(ts, j, Tokens(a.items[k].target))
    ensures m == j + |Tokens(a.items[k].target)| - 1 && m + 2 == j + |ElementsFrom(a, k)|
    ensures m + 1 < |ts| && ts[m] != Lexer.ArrayEnd && ts[m + 1] == Lexer.ArrayEnd
  {
    var e := a.items[k].target;
    m := j + |Tokens(e)| - 1;
    ElementsFromLast(a, k);
    CloseLayout(ts, j, Tokens(e), Lexer.ArrayEnd, m);
    LastToken(ts, j, e, m);
  }


  /** Where an element's tokens, the comma after them and the remaining elements sit. */
  lemma NextElementLayout(a: Value, k: nat, ts: seq<Lexer.Token>, j: nat) returns (m: nat)
    requires a.Array? && Readable(a) && k + 1 < |a.items|
    requires At(ts, j, ElementsFrom(a, k))
    ensures Readable(a.items[k].target) && At(ts, j, Tokens(a.items[k].target))
    ensures m == j + |Tokens(a.items[k].target)| - 1
    ensures m + 2 < |ts| && ts[m] != Lexer.ArrayEnd && ts[m + 1] == Lexer.Comma
    ensures At(ts, m + 2, ElementsFrom(a, k + 1))
    ensures m + 2 + |ElementsFrom(a, k + 1)| == j + |ElementsFrom(a, k)|
  {
    var e := a.items[k].target;
    m := j + |Tokens(e)| - 1;
    ElementsFromNext(a, k);
    CommaLayout(ts, j, Tokens(e), ElementsFrom(a, k + 1), m);
    LastToken(ts, j, e, m);
  }


  /** Where the last member's key, colon, value tokens and the `}` sit. */
  lemma LastMemberLayout(o: Value, k: nat, ts: seq<Lexer.Token>, j: nat) returns (m: nat)
    requires o.Object? && Readable(o) && k + 1 == |o.members|
    requires At(ts, j, MembersFrom(o, k))
    ensures o.members[k].value.Ref? && Readable(o.members[k].value.target)
    ensures At(ts, j + 2, Tokens(o.members[k].value.target))
    ensures m == j + 2 + |Tokens(o.members[k].value.target)| - 1 && m + 2 == j + |MembersFrom(o, k)|
    ensures m + 1 < |ts| && ts[j] == Lexer.String(o.members[k].key) && ts[j + 1] == Lexer.Colon
    ensures ts[m + 1] == Lexer.ObjectEnd
  {
    var e := o.members[k].value.target;
    m := j + 2 + |Tokens(e)| - 1;
    MembersFromLast(o, k);
    HeadLayout(ts, j, o.members[k].key, Tokens(e) + [Lexer.ObjectEnd]);
    CloseLayout(ts, j + 2, Tokens(e), Lexer.ObjectEnd, m);
  }


  /** Where a member's key, colon, value tokens, the comma and the remaining members sit. */
  lemma NextMemberLayout(o: Value, k: nat, ts: seq<Lexer.Token>, j: nat) returns (m: nat)
    requires o.Object? && Readable(o) && k + 1 < |o.members|
    requires At(ts, j, MembersFrom(o, k))
    ensures o.members[k].value.Ref? && Readable(o.members[k].value.target)
    ensures At(ts, j + 2, Tokens(o.members[k].value.target))
    ensures m == j + 2 + |Tokens(o.members[k].value.target)| - 1
    ensures m + 2 < |ts| && ts[j] == Lexer.String(o.members[k].key) && ts[j + 1] == Lexer.Colon
    ensures ts[m + 1] == Lexer.Comma
    ensures At(ts, m + 2, MembersFrom(o, k + 1))
    ensures m + 2 + |MembersFrom(o, k + 1)| == j + |MembersFrom(o, k)|
  {
    var e := o.members[k].value.target;
    m := j + 2 + |Tokens(e)| - 1;
    MembersFromNext(o, k);
    HeadLayout(ts, j, o.members[k].key, Tokens(e) + ([Lexer.Comma] + MembersFrom(o, k + 1)));
    CommaLayout(ts, j + 2, Tokens(e), MembersFrom(o, k + 1), m);
  }


  /** The last element: its tokens, then the `]`. */
  lemma ElementsFromLast(a: Value, k: nat)
    requires a.Array? && Readable(a) && k + 1 == |a.items|
    ensures Readable(a.items[k].target) && !a.items[k].target.Array?
    ensures ElementsFrom(a, k) == Tokens(a.items[k].target) + [Lexer.ArrayEnd]
  {
  }

  /** An element other than the last: its tokens, a comma, then the rest. */
  lemma ElementsFromNext(a: Value, k: nat)
    requires a.Array? && Readable(a) && k + 1 < |a.items|
    ensures Readable(a.items[k].target) && !a.items[k].target.Array?
    ensures ElementsFrom(a, k) == Tokens(a.items[k].target) + ([Lexer.Comma] + ElementsFrom(a, k + 1))
    ensures |ElementsFrom(a, k + 1)| > 0
  {
  }

  /** The last member: key, colon, the value's tokens, then the `}`. */
  lemma MembersFromLast(o: Value, k: nat)
    requires o.Object? && Readable(o) && k + 1 == |o.members|
    ensures o.members[k].value.Ref? && Readable(o.members[k].value.target)
    ensures MembersFrom(o, k)
         == [Lexer.String(o.members[k].key), Lexer.Colon] + (Tokens(o.members[k].value.target) + [Lexer.ObjectEnd])
  {
  }

  /** A member other than the last: key, colon, the value's tokens, a comma, then the rest. */
  lemma MembersFromNext(o: Value, k: nat)
    requires o.Object? && Readable(o) && k + 1 < |o.members|
    ensures o.members[k].value.Ref? && Readable(o.members[k].value.target)
    ensures MembersFrom(o, k)
         == [Lexer.String(o.members[k].key), Lexer.Colon]
            + (Tokens(o.members[k].value.target) + ([Lexer.Comma] + MembersFrom(o, k + 1)))
    ensures |MembersFrom(o, k + 1)| > 0
  {
  }

  /** `readArray` with a token after the `[` starts its loop there with no elements. */
  lemma ArrayStep(ts: seq<Lexer.Token>, i: nat)
    requires i + 1 < |ts| && ts[i] == Lexer.ArrayStart
    ensures ReadArray(ts, i) == ReadElements(ts, i + 1, [])
  {
  }

  /** A turn of `readArray`'s loop reads a value and appends it. */
  lemma ElementStep(ts: seq<Lexer.Token>, j: nat, items: seq<Ptr>, p: Ptr, m: nat)
    requires j <= m < |ts| && ReadValue(ts, j) == Success(Read(p, m))
    ensures ReadElements(ts, j, items) == AfterElement(ts, m, items + [p])
  {
  }

  /** After an element that is not an array, a `]` ends the array on the `]`. */
  lemma AfterElementEnd(ts: seq<Lexer.Token>, m: nat, items: seq<Ptr>)
    requires m + 1 < |ts| && ts[m] != Lexer.ArrayEnd && ts[m + 1] == Lexer.ArrayEnd
    ensures AfterElement(ts, m, items) == Success(Read(Ref(Array(items)), m + 1))
  {
  }

  /** After an element that is not an array, a comma with tokens after it continues the loop. */
  lemma AfterElementComma(ts: seq<Lexer.Token>, m: nat, items: seq<Ptr>)
    requires m + 2 < |ts| && ts[m] != Lexer.ArrayEnd && ts[m + 1] == Lexer.Comma
    ensures AfterElement(ts, m, items) == ReadElements(ts, m + 2, items)
  {
  }

  /** An element followed by the `]` ends the array there. */
  lemma ElementThenEnd(ts: seq<Lexer.Token>, j: nat, items: seq<Ptr>, p: Ptr, m: nat)
    requires j <= m && m + 1 < |ts| && ReadValue(ts, j) == Success(Read(p, m))
    requires ts[m] != Lexer.ArrayEnd && ts[m + 1] == Lexer.ArrayEnd
    ensures ReadElements(ts, j, items) == Success(Read(Ref(Array(items + [p])), m + 1))
  {
    ElementStep(ts, j, items, p, m);
    AfterElementEnd(ts, m, items + [p]);
  }

  /** An element followed by a comma with more tokens: the loop goes on after the comma. */
  lemma ElementThenComma(ts: seq<Lexer.Token>, j: nat, items: seq<Ptr>, p: Ptr, m: nat)
    requires j <= m && m + 2 < |ts| && ReadValue(ts, j) == Success(Read(p, m))
    requires ts[m] != Lexer.ArrayEnd && ts[m + 1] == Lexer.Comma
    ensures ReadElements(ts, j, items) == ReadElements(ts, m + 2, items + [p])
  {
    ElementStep(ts, j, items, p, m);
    AfterElementComma(ts, m, items + [p]);
  }

  /** `ElementThenComma` with the elements read so far a prefix of `items`. */
  lemma ElementThenCommaAt(ts: seq<Lexer.Token>, j: nat, items: seq<Ptr>, k: nat, m: nat)
    requires k < |items| && j <= m && m + 2 < |ts| && ReadValue(ts, j) == Success(Read(items[k], m))
    requires ts[m] != Lexer.ArrayEnd && ts[m + 1] == Lexer.Comma
    ensures ReadElements(ts, j, items[..k]) == ReadElements(ts, m + 2, items[..k + 1])
  {
    ElementThenComma(ts, j, items[..k], items[k], m);
    assert items[..k] + [items[k]] == items[..k + 1];
  }

  /** A turn of `readObject`'s loop on a string key steps to the token after the key. */
  lemma KeyStep(ts: seq<Lexer.Token>, j: nat, o: Value)
    requires o.Object? && j + 1 < |ts| && ts[j].String?
    ensures ReadMembers(ts, j, o) == ReadMember(ts, j + 1, ts[j].s, o)
  {
  }

  /** A colon after the key is stepped over, and the value read there is inserted. */
  lemma ColonStep(ts: seq<Lexer.Token>, k: nat, key: string, o: Value, p: Ptr, m: nat)
    requires o.Object? && k + 1 <= m < |ts| && ts[k] == Lexer.Colon
    requires ReadValue(ts, k + 1) == Success(Read(p, m))
    ensures ReadMember(ts, k, key, o) == AfterMember(ts, m, Insert(o, key, p))
  {
  }

  /** A whole member: key, colon and value. */
  lemma MemberStep(ts: seq<Lexer.Token>, j: nat, o: Value, p: Ptr, m: nat)
    requires o.Object? && j + 2 <= m < |ts| && ts[j].String? && ts[j + 1] == Lexer.Colon
    requires ReadValue(ts, j + 2) == Success(Read(p, m))
    ensures ReadMembers(ts, j, o) == AfterMember(ts, m, Insert(o, ts[j].s, p))
  {
    KeyStep(ts, j, o);
    ColonStep(ts, j + 1, ts[j].s, o, p, m);
  }

  /** After a member, a `}` ends the object on the `}`. */
  lemma AfterMemberEnd(ts: seq<Lexer.Token>, m: nat, o: Value)
    requires o.Object? && m + 1 < |ts| && ts[m + 1] == Lexer.ObjectEnd
    ensures AfterMember(ts, m, o) == Success(Read(Ref(o), m + 1))
  {
  }

  /** After a member, a comma with tokens after it continues the loop after the comma. */
  lemma AfterMemberComma(ts: seq<Lexer.Token>, m: nat, o: Value)
    requires o.Object? && m + 2 < |ts| && ts[m + 1] == Lexer.Comma
    ensures AfterMember(ts, m, o) == ReadMembers(ts, m + 2, o)
  {
  }

  /** A member followed by the `}` ends the object there. */
  lemma MemberThenEnd(ts: seq<Lexer.Token>, j: nat, o: Value, key: string, p: Ptr, m: nat)
    requires o.Object? && j + 2 <= m && m + 1 < |ts| && ts[j] == Lexer.String(key) && ts[j + 1] == Lexer.Colon
    requires ReadValue(ts, j + 2) == Success(Read(p, m)) && ts[m + 1] == Lexer.ObjectEnd
    ensures ReadMembers(ts, j, o) == Success(Read(Ref(Insert(o, key, p)), m + 1))
  {
    MemberStep(ts, j, o, p, m);
    AfterMemberEnd(ts, m, Insert(o, key, p));
  }

  /** A member followed by a comma and more tokens continues the loop after the comma. */
  lemma MemberThenComma(ts: seq<Lexer.Token>, j: nat, o: Value, key: string, p: Ptr, m: nat)
    requires o.Object? && j + 2 <= m && m + 2 < |ts| && ts[j] == Lexer.String(key) && ts[j + 1] == Lexer.Colon
    requires ReadValue(ts, j + 2) == Success(Read(p, m)) && ts[m + 1] == Lexer.Comma
    ensures ReadMembers(ts, j, o) == ReadMembers(ts, m + 2, Insert(o, key, p))
  {
    MemberStep(ts, j, o, p, m);
    AfterMemberComma(ts, m, Insert(o, key, p));
  }

  /** With distinct keys, inserting the members in order rebuilds the dictionary. */
  lemma InsertNext(ms: seq<Member>, k: nat)
    requires DistinctKeys(ms) && k < |ms|
    ensures Insert(Object(ms[..k]), ms[k].key, ms[k].value) == Object(ms[..k + 1])
  {
    assert ms[k].key !in Keys(ms[..k]) by {
      forall x | 0 <= x < k ensures Keys(ms[..k])[x] != ms[k].key {
        assert ms[..k][x] == ms[x];
      }
    }
    InsertKeys(Object(ms[..k]), ms[k].key, ms[k].value);
    assert ms[..k] + [ms[k]] == ms[..k + 1];
  }

  /** `parse` on exactly the tokens of a readable tree gives the tree back. */
  lemma ParseTokensRoundTrip(v: Value)
    requires Readable(v)
    ensures ParseTokens(Tokens(v)) == Success(Ref(v))
  {
    var ts := Tokens(v);
    AtSuffix(ts, 0);
    assert ts[0..] == ts;
    ReadValueTokens(v, ts, 0);
  }
}
