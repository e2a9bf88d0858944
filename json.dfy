/**
 * JSON-shaped JavaScript values as the request bodies, configuration
 * objects and microformats2 documents of the publishing server use them.
 * An object keeps its members in the order given. JavaScript lists
 * integer-like keys first, in ascending order, and the others in insertion
 * order; the two agree when no key is integer-like.
 */
module Json {
  import opened Wrappers

  datatype Value =
    | Undefined
    | Null
    | Bool(b: bool)
    | Num(n: int)
    | Str(s: string)
    | Arr(items: seq<Value>)
    | Obj(members: seq<Member>)

  datatype Member = Member(key: string, value: Value)

  /** The member names of an object, in order. */
  function Keys(ms: seq<Member>): (ks: seq<string>)
    ensures |ks| == |ms|
    ensures forall i :: 0 <= i < |ms| ==> ks[i] == ms[i].key
  {
    if ms == [] then [] else [ms[0].key] + Keys(ms[1..])
  }

  /** No two members share a name, as in every object `JSON.parse` produces. */
  predicate DistinctKeys(ms: seq<Member>) {
    forall i, j :: 0 <= i < j < |ms| ==> ms[i].key != ms[j].key
  }

  /** The position of the first member named `key`, if there is one. */
  function IndexOf(ms: seq<Member>, key: string): (r: Option<nat>)
    ensures r.Some? ==> r.value < |ms| && ms[r.value].key == key
    ensures r.Some? ==> forall j :: 0 <= j < r.value ==> ms[j].key != key
    ensures r.None? <==> key !in Keys(ms)
  {
    if ms == [] then None
    else if ms[0].key == key then Some(0)
    else match IndexOf(ms[1..], key)
      case None => None
      case Some(i) => Some(i + 1)
  }

  /** Property access `obj[key]`: `undefined` when the member is missing. */
  function Get(ms: seq<Member>, key: string): (v: Value)
    ensures key !in Keys(ms) ==> v == Undefined
  {
    match IndexOf(ms, key)
    case None => Undefined
    case Some(i) => ms[i].value
  }

  /** JavaScript's ToBoolean: the falsy values are undefined, null, false, 0 and the empty string. */
  predicate Truthy(v: Value)
    ensures Truthy(v) <==> v !in {Undefined, Null, Bool(false), Num(0), Str("")}
  {
    match v
    case Undefined => false
    case Null => false
    case Bool(b) => b
    case Num(n) => n != 0
    case Str(s) => s != ""
    case Arr(_) => true
    case Obj(_) => true
  }

  /** Looking a name up in an object whose first member is `m`. */
  lemma GetCons(m: Member, rest: seq<Member>, key: string)
    ensures Get([m] + rest, key) == if m.key == key then m.value else Get(rest, key)
  {
    assert ([m] + rest)[1..] == rest;
  }
}
