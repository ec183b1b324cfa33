/**
 * The document model: the `Value` class hierarchy as one closed sum of six
 * kinds. Children are held through `Ptr`, which is either a node or the
 * null pointer that `readValue` hands back for a token that starts no value.
 */
module Values {
  import opened Wrappers

  datatype Value =
    | Object(members: seq<Member>)
    | Array(items: seq<Ptr>)
    | String(bytes: string)
    | Number(literal: string)
    | Boolean(b: bool)
    | Null

  /** A `Value::Ptr`. */
  datatype Ptr = Nil | Ref(target: Value)

  /**
   * One entry of an Object's dictionary. The order of the entries is the
   * order in which keys were first inserted; it stands for the dictionary's
   * enumeration order.
   */
  datatype Member = Member(key: string, value: Ptr)

  /** `VALUE_TYPE`, as `getType` reports it. */
  datatype Kind = ObjectKind | ArrayKind | NumberKind | StringKind | BooleanKind | NullKind

  function KindOf(v: Value): (k: Kind)
    ensures k == ObjectKind <==> v.Object?
    ensures k == ArrayKind <==> v.Array?
    ensures k == NumberKind <==> v.Number?
    ensures k == StringKind <==> v.String?
    ensures k == BooleanKind <==> v.Boolean?
    ensures k == NullKind <==> v.Null?
  {
    match v
    case Object(_) => ObjectKind
    case Array(_) => ArrayKind
    case Number(_) => NumberKind
    case String(_) => StringKind
    case Boolean(_) => BooleanKind
    case Null => NullKind
  }

  /** The keys of a dictionary, in enumeration order. */
  function Keys(ms: seq<Member>): (ks: seq<string>)
    ensures |ks| == |ms|
    ensures forall i {:trigger ks[i]} :: 0 <= i < |ms| ==> ks[i] == ms[i].key
  {
    if |ms| == 0 then [] else [ms[0].key] + Keys(ms[1..])
  }

  /** A dictionary holds each key at most once. */
  predicate DistinctKeys(ms: seq<Member>) {
    forall i, j :: 0 <= i < j < |ms| ==> ms[i].key != ms[j].key
  }

  /** `_items.find(key)`: the pointer stored under `key`, if any. */
  function Find(ms: seq<Member>, key: string): (r: Option<Ptr>)
    ensures r.Some? <==> key in Keys(ms)
    ensures r.Some? ==> exists i :: 0 <= i < |ms| && ms[i] == Member(key, r.value)
    ensures forall i :: 0 <= i < |ms| && ms[i].key == key && DistinctKeys(ms) ==> r == Some(ms[i].value)
  {
    if |ms| == 0 then None
    else if ms[0].key == key then Some(ms[0].value)
    else
      var r := Find(ms[1..], key);
      assert forall i :: 1 <= i < |ms| ==> ms[1..][i - 1] == ms[i];
      r
  }

  /** `Object::count` and `Array::count`: the number of entries. */
  function Count(v: Value): (n: nat)
    requires v.Object? || v.Array?
    ensures v.Object? && DistinctKeys(v.members) ==> n == |KeySet(v.members)|
    ensures v.Array? ==> n == |v.items|
  {
    if v.Object? then
      if DistinctKeys(v.members) then DistinctKeyCount(v.members); |v.members|
      else |v.members|
    else |v.items|
  }

  /** With distinct keys, a dictionary has as many entries as keys. */
  lemma {:induction false} DistinctKeyCount(ms: seq<Member>)
    requires DistinctKeys(ms)
    ensures |KeySet(ms)| == |ms|
  {
    if |ms| > 0 {
      KeySetCons(ms);
      DistinctKeyCount(ms[1..]);
    }
  }

  /** The set of keys of a dictionary. */
  function KeySet(ms: seq<Member>): set<string> {
    set m | m in ms :: m.key
  }

  /** Splitting off the first entry: its key is new to the rest when keys are distinct. */
  lemma KeySetCons(ms: seq<Member>)
    requires |ms| > 0
    ensures KeySet(ms) == {ms[0].key} + KeySet(ms[1..])
    ensures DistinctKeys(ms) ==> DistinctKeys(ms[1..]) && ms[0].key !in KeySet(ms[1..])
  {
    var rest := ms[1..];
    assert forall m :: m in ms <==> m == ms[0] || m in rest;
    if DistinctKeys(ms) {
      forall m | m in rest
        ensures m.key != ms[0].key
      {
        var i :| 0 <= i < |rest| && rest[i] == m;
        assert ms[i + 1] == m;
      }
    }
  }

  /**
   * `Object::get`: the pointer stored under `key`, or the null pointer when
   * the key is absent.
   */
  function Get(o: Value, key: string): (p: Ptr)
    requires o.Object?
    ensures key !in Keys(o.members) ==> p == Nil
    ensures key in Keys(o.members) ==> Some(p) == Find(o.members, key)
  {
    match Find(o.members, key)
    case Some(p) => p
    case None => Nil
  }

  /**
   * The typed lookup `get<T>`: the node stored under `key` when it has the
   * requested kind. The C++ casts without checking; this answers `None`
   * instead of reinterpreting a node of another kind.
   */
  function GetAs(o: Value, key: string, kind: Kind): (r: Option<Value>)
    requires o.Object?
    ensures r.Some? <==> Get(o, key).Ref? && KindOf(Get(o, key).target) == kind
    ensures r.Some? ==> Get(o, key) == Ref(r.value) && KindOf(r.value) == kind
  {
    var p := Get(o, key);
    if p.Ref? && KindOf(p.target) == kind then Some(p.target) else None
  }

  /** Stores `p` under `key`: overwrites an existing entry in place, else appends. */
  function InsertMember(ms: seq<Member>, key: string, p: Ptr): (r: seq<Member>)
    ensures |r| == |ms| || r == ms + [Member(key, p)]
  {
    if |ms| == 0 then [Member(key, p)]
    else if ms[0].key == key then [Member(key, p)] + ms[1..]
    else [ms[0]] + InsertMember(ms[1..], key, p)
  }

  /** Storing keeps the keys and their order, adding `key` last when it was absent. */
  lemma {:induction false} InsertMemberKeys(ms: seq<Member>, key: string, p: Ptr)
    ensures Keys(InsertMember(ms, key, p)) == if key in Keys(ms) then Keys(ms) else Keys(ms) + [key]
    ensures key !in Keys(ms) ==> InsertMember(ms, key, p) == ms + [Member(key, p)]
  {
    if |ms| > 0 && ms[0].key != key {
      InsertMemberKeys(ms[1..], key, p);
      var r := InsertMember(ms, key, p);
      assert Keys(ms) == [ms[0].key] + Keys(ms[1..]);
      assert Keys(r) == [ms[0].key] + Keys(r[1..]);
      assert r[1..] == InsertMember(ms[1..], key, p);
    } else if |ms| > 0 {
      assert Keys(ms)[0] == key;
    }
  }

  /** After storing `p` under `key`, looking `key` up yields `p` and nothing else moved. */
  lemma {:induction false} InsertMemberFind(ms: seq<Member>, key: string, p: Ptr, k: string)
    ensures Find(InsertMember(ms, key, p), k) == if k == key then Some(p) else Find(ms, k)
  {
    if |ms| > 0 && ms[0].key != key {
      InsertMemberFind(ms[1..], key, p, k);
      var r := InsertMember(ms, key, p);
      assert r[1..] == InsertMember(ms[1..], key, p);
    }
  }

  lemma InsertMemberFacts(ms: seq<Member>, key: string, p: Ptr)
    ensures Find(InsertMember(ms, key, p), key) == Some(p)
    ensures forall k :: k != key ==> Find(InsertMember(ms, key, p), k) == Find(ms, k)
  {
    InsertMemberFind(ms, key, p, key);
    forall k | k != key
      ensures Find(InsertMember(ms, key, p), k) == Find(ms, k)
    {
      InsertMemberFind(ms, key, p, k);
    }
  }

  /** Storing a key keeps the keys of a dictionary distinct. */
  lemma InsertMemberDistinct(ms: seq<Member>, key: string, p: Ptr)
    ensures DistinctKeys(ms) ==> DistinctKeys(InsertMember(ms, key, p))
  {
    if !DistinctKeys(ms) {
      return;
    }
    var r := InsertMember(ms, key, p);
    var ks := Keys(r);
    InsertMemberKeys(ms, key, p);
    forall i, j | 0 <= i < j < |r|
      ensures r[i].key != r[j].key
    {
      assert ks[i] == r[i].key && ks[j] == r[j].key;
      if key in Keys(ms) {
        assert Keys(ms)[i] == ms[i].key && Keys(ms)[j] == ms[j].key;
      } else if j < |ms| {
        assert ks[i] == Keys(ms)[i] && ks[j] == Keys(ms)[j];
      } else {
        assert ks[j] == key && ks[i] == Keys(ms)[i];
      }
    }
  }

  /**
   * `Object::insert`: last write wins. The count grows by one exactly when
   * `key` was absent, a new key goes last, and keys stay distinct.
   */
  function Insert(o: Value, key: string, p: Ptr): (r: Value)
    requires o.Object?
    ensures r.Object?
    ensures DistinctKeys(o.members) ==> DistinctKeys(r.members)
  {
    InsertMemberDistinct(o.members, key, p);
    Object(InsertMember(o.members, key, p))
  }

  /**
   * After `insert` the key is present, the earlier keys keep their order,
   * and the key is appended, growing the count, exactly when it was new.
   */
  lemma InsertKeys(o: Value, key: string, p: Ptr)
    requires o.Object?
    ensures key in Keys(Insert(o, key, p).members)
    ensures Keys(o.members) <= Keys(Insert(o, key, p).members)
    ensures |Insert(o, key, p).members| == |o.members| + (if key in Keys(o.members) then 0 else 1)
    ensures key !in Keys(o.members) ==> Insert(o, key, p).members == o.members + [Member(key, p)]
  {
    InsertMemberKeys(o.members, key, p);
  }

  /** After `insert`, `get(key)` yields the stored pointer and every other key is untouched. */
  lemma InsertGet(o: Value, key: string, p: Ptr)
    requires o.Object?
    ensures Get(Insert(o, key, p), key) == p
    ensures forall k :: k != key ==> Get(Insert(o, key, p), k) == Get(o, k)
  {
    InsertMemberFacts(o.members, key, p);
  }

  /** `count` after `insert`: one more exactly when the key was new. */
  lemma InsertCount(o: Value, key: string, p: Ptr)
    requires o.Object?
    ensures Count(Insert(o, key, p)) == Count(o) + (if key in Keys(o.members) then 0 else 1)
  {
    InsertKeys(o, key, p);
  }

  /**
   * The non-const `Object::operator[]`: the pointer stored under `key`,
   * inserting a null pointer first when the key is absent.
   */
  function Subscript(o: Value, key: string): (r: (Ptr, Value))
    requires o.Object?
    ensures r.0 == Get(o, key)
    ensures r.1.Object? && key in Keys(r.1.members)
    ensures forall k :: Get(r.1, k) == Get(o, k)
    ensures key in Keys(o.members) ==> r.1 == o
  {
    if key in Keys(o.members) then (Get(o, key), o)
    else
      InsertGet(o, key, Nil);
      InsertKeys(o, key, Nil);
      (Nil, Insert(o, key, Nil))
  }

  /** `Array::operator[]`: the element at `index`, which must exist. */
  function At(a: Value, index: nat): (p: Ptr)
    requires a.Array? && index < |a.items|
    ensures p in a.items
    ensures Complete(a) ==> p.Ref? && Complete(p.target)
  {
    a.items[index]
  }

  /**
   * `Array::push_back`: appends at the end; earlier elements keep their
   * positions and the count grows by one.
   */
  function PushBack(a: Value, p: Ptr): (r: Value)
    requires a.Array?
    ensures r.Array? && Count(r) == Count(a) + 1
    ensures At(r, Count(a)) == p
    ensures forall i :: 0 <= i < Count(a) ==> At(r, i) == At(a, i)
  {
    Array(a.items + [p])
  }

  /** The array `readArray` builds: `push_back` of each pointer in turn, starting from an empty array. */
  function PushAll(ps: seq<Ptr>): (r: Value)
    ensures r.Array?
  {
    if |ps| == 0 then Array([]) else PushBack(PushAll(ps[..|ps| - 1]), ps[|ps| - 1])
  }

  /**
   * `operator[]` reads back what `push_back` put there: after pushing `ps`
   * in order, the count is `|ps|` and index `i` holds `ps[i]`.
   */
  lemma {:induction false} PushAllAt(ps: seq<Ptr>)
    ensures Count(PushAll(ps)) == |ps|
    ensures forall i :: 0 <= i < |ps| ==> At(PushAll(ps), i) == ps[i]
  {
    if |ps| > 0 {
      var front := ps[..|ps| - 1];
      PushAllAt(front);
      forall i | 0 <= i < |ps|
        ensures At(PushAll(ps), i) == ps[i]
      {
        if i < |front| {
          assert At(PushAll(front), i) == front[i];
        }
      }
    }
  }

  /** A tree without null pointers: every child is a node. */
  predicate Complete(v: Value) {
    match v
    case Object(ms) => forall i :: 0 <= i < |ms| ==> ms[i].value.Ref? && Complete(ms[i].value.target)
    case Array(items) => forall i :: 0 <= i < |items| ==> items[i].Ref? && Complete(items[i].target)
    case _ => true
  }
}
