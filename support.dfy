/**
 * Pure helpers of the support package: list helpers, the recursive
 * `cleanObject`, and the post-type configuration lookups.
 */
module Support {
  import opened Wrappers
  import opened Json

  /** A JSON object as its ordered members. */
  type Object = seq<Member>

  // ---------------------------------------------------------------------
  // addToArray

  /** `addToArray(arr, value)`: `value` appended to `arr`, a missing array counting as empty. */
  function AddToArray(arr: Option<seq<Value>>, value: Value): (r: seq<Value>)
    ensures |r| > 0 && r[|r| - 1] == value
    ensures arr.None? ==> r == [value]
    ensures arr.Some? ==> |r| == |arr.value| + 1 && r[..|arr.value|] == arr.value
  {
    match arr
    case None => [value]
    case Some(items) => items + [value]
  }

  // ---------------------------------------------------------------------
  // cleanArray and cleanObject

  /** The values the cleaning helpers drop: undefined, null, false and the empty string. */
  predicate Blank(v: Value) {
    v == Undefined || v == Null || v == Bool(false) || v == Str("")
  }

  /**
   * The blank values are JavaScript's falsy values except the number 0,
   * which both cleaning helpers keep.
   */
  lemma BlankIsFalsyButZero(v: Value)
    ensures Blank(v) <==> !Truthy(v) && v != Num(0)
  {
  }

  /** `cleanArray`: the non-blank items, in their original order. */
  function CleanArray(items: seq<Value>): (r: seq<Value>)
    ensures forall v :: v in r <==> v in items && !Blank(v)
    ensures |r| <= |items|
  {
    if items == [] then []
    else if Blank(items[0]) then CleanArray(items[1..])
    else [items[0]] + CleanArray(items[1..])
  }

  /** `cleanArray` keeps order: it distributes over concatenation. */
  lemma {:induction false} CleanArrayConcat(a: seq<Value>, b: seq<Value>)
    ensures CleanArray(a + b) == CleanArray(a) + CleanArray(b)
  {
    if a == [] {
      assert a + b == b;
    } else {
      assert (a + b)[0] == a[0] && (a + b)[1..] == a[1..] + b;
      CleanArrayConcat(a[1..], b);
    }
  }

  /**
   * `cleanObject`: drops every blank member of an object and every blank
   * item of an array, at every depth; other values are returned as they are.
   */
  function CleanObject(v: Value): (r: Value)
    ensures r.Arr? <==> v.Arr?
    ensures r.Obj? <==> v.Obj?
    ensures !v.Arr? && !v.Obj? ==> r == v
    decreases v
  {
    match v
    case Arr(items) => Arr(CleanItems(items))
    case Obj(ms) => Obj(CleanMembers(ms))
    case _ => v
  }

  function CleanItems(items: seq<Value>): seq<Value>
    decreases items
  {
    if items == [] then []
    else if Blank(items[0]) then CleanItems(items[1..])
    else [CleanObject(items[0])] + CleanItems(items[1..])
  }

  function CleanMembers(ms: seq<Member>): seq<Member>
    decreases ms
  {
    if ms == [] then []
    else if Blank(ms[0].value) then CleanMembers(ms[1..])
    else [Member(ms[0].key, CleanObject(ms[0].value))] + CleanMembers(ms[1..])
  }

  /**
   * Cleaning an array keeps exactly its non-blank items, in order, each of
   * them cleaned in turn.
   */
  lemma {:induction false} CleanItemsMapsCleanArray(items: seq<Value>)
    ensures |CleanItems(items)| == |CleanArray(items)|
    ensures forall i :: 0 <= i < |CleanItems(items)| ==> CleanItems(items)[i] == CleanObject(CleanArray(items)[i])
  {
    if items != [] {
      CleanItemsMapsCleanArray(items[1..]);
    }
  }

  /** No blank value is left at any depth. */
  predicate IsClean(v: Value)
    decreases v
  {
    match v
    case Arr(items) => forall i :: 0 <= i < |items| ==> !Blank(items[i]) && IsClean(items[i])
    case Obj(ms) => forall i :: 0 <= i < |ms| ==> !Blank(ms[i].value) && IsClean(ms[i].value)
    case _ => true
  }

  /** `cleanObject` leaves nothing blank, at any depth. */
  lemma {:induction false} CleanObjectIsClean(v: Value)
    ensures IsClean(CleanObject(v))
    decreases v
  {
    match v
    case Arr(items) => CleanItemsAreClean(items);
    case Obj(ms) => CleanMembersAreClean(ms);
    case _ =>
  }

  lemma {:induction false} CleanItemsAreClean(items: seq<Value>)
    ensures forall i :: 0 <= i < |CleanItems(items)| ==>
      !Blank(CleanItems(items)[i]) && IsClean(CleanItems(items)[i])
    decreases items
  {
    if items != [] {
      CleanItemsAreClean(items[1..]);
      if !Blank(items[0]) {
        CleanObjectIsClean(items[0]);
      }
    }
  }

  lemma {:induction false} CleanMembersAreClean(ms: seq<Member>)
    ensures forall i :: 0 <= i < |CleanMembers(ms)| ==>
      !Blank(CleanMembers(ms)[i].value) && IsClean(CleanMembers(ms)[i].value)
    decreases ms
  {
    if ms != [] {
      CleanMembersAreClean(ms[1..]);
      if !Blank(ms[0].value) {
        CleanObjectIsClean(ms[0].value);
      }
    }
  }

  /** A value with nothing blank in it is returned unchanged. */
  lemma {:induction false} CleanObjectKeepsClean(v: Value)
    requires IsClean(v)
    ensures CleanObject(v) == v
    decreases v
  {
    match v
    case Arr(items) => CleanItemsKeepClean(items);
    case Obj(ms) => CleanMembersKeepClean(ms);
    case _ =>
  }

  lemma {:induction false} CleanItemsKeepClean(items: seq<Value>)
    requires forall i :: 0 <= i < |items| ==> !Blank(items[i]) && IsClean(items[i])
    ensures CleanItems(items) == items
    decreases items
  {
    if items != [] {
      CleanObjectKeepsClean(items[0]);
      CleanItemsKeepClean(items[1..]);
    }
  }

  lemma {:induction false} CleanMembersKeepClean(ms: seq<Member>)
    requires forall i :: 0 <= i < |ms| ==> !Blank(ms[i].value) && IsClean(ms[i].value)
    ensures CleanMembers(ms) == ms
    decreases ms
  {
    if ms != [] {
      CleanObjectKeepsClean(ms[0].value);
      CleanMembersKeepClean(ms[1..]);
    }
  }

  /** Cleaning twice is cleaning once. */
  lemma CleanObjectIdempotent(v: Value)
    ensures CleanObject(CleanObject(v)) == CleanObject(v)
  {
    CleanObjectIsClean(v);
    CleanObjectKeepsClean(CleanObject(v));
  }

  /**
   * Cleaning works member by member, so it keeps the surviving members in
   * order: it distributes over concatenation.
   */
  lemma {:induction false} CleanMembersConcat(a: seq<Member>, b: seq<Member>)
    ensures CleanMembers(a + b) == CleanMembers(a) + CleanMembers(b)
  {
    if a == [] {
      assert a + b == b;
    } else {
      assert (a + b)[0] == a[0] && (a + b)[1..] == a[1..] + b;
      CleanMembersConcat(a[1..], b);
    }
  }

  /**
   * A key survives cleaning exactly when some member with that key has a
   * value that is not blank; distinct keys stay distinct.
   */
  lemma {:induction false} CleanMembersKeys(ms: seq<Member>)
    ensures forall k :: k in Keys(CleanMembers(ms)) <==>
      exists i :: 0 <= i < |ms| && ms[i].key == k && !Blank(ms[i].value)
    ensures DistinctKeys(ms) ==> DistinctKeys(CleanMembers(ms))
    decreases ms
  {
    if ms != [] {
      CleanMembersKeys(ms[1..]);
      var rest := CleanMembers(ms[1..]);
      forall k | k in Keys(CleanMembers(ms))
        ensures exists i :: 0 <= i < |ms| && ms[i].key == k && !Blank(ms[i].value)
      {
        if !Blank(ms[0].value) && k == ms[0].key {
        } else {
          if !Blank(ms[0].value) {
            var c := CleanMembers(ms);
            assert c == [Member(ms[0].key, CleanObject(ms[0].value))] + rest;
            var i :| 0 <= i < |c| && c[i].key == k;
            assert i > 0 && rest[i - 1].key == k;
          }
          assert k in Keys(rest);
          var j :| 0 <= j < |ms[1..]| && ms[1..][j].key == k && !Blank(ms[1..][j].value);
          assert ms[j + 1] == ms[1..][j];
        }
      }
      forall k | exists i :: 0 <= i < |ms| && ms[i].key == k && !Blank(ms[i].value)
        ensures k in Keys(CleanMembers(ms))
      {
        var i :| 0 <= i < |ms| && ms[i].key == k && !Blank(ms[i].value);
        if i > 0 {
          assert ms[1..][i - 1] == ms[i];
        }
      }
      if DistinctKeys(ms) && !Blank(ms[0].value) {
        assert DistinctKeys(ms[1..]);
        forall j | 0 <= j < |rest| ensures rest[j].key != ms[0].key {
          assert rest[j].key in Keys(rest);
          var i :| 0 <= i < |ms[1..]| && ms[1..][i].key == rest[j].key && !Blank(ms[1..][i].value);
          assert ms[i + 1] == ms[1..][i];
        }
      }
    }
  }

  /**
   * In a cleaned object, reading a member gives the cleaned value of that
   * member, or `undefined` when the member was blank or missing.
   */
  lemma {:induction false} CleanMembersGet(ms: seq<Member>, key: string)
    requires DistinctKeys(ms)
    ensures Get(CleanMembers(ms), key) ==
      if Blank(Get(ms, key)) then Undefined else CleanObject(Get(ms, key))
    decreases ms
  {
    if ms != [] {
      var m := ms[0];
      assert ms == [m] + ms[1..];
      assert DistinctKeys(ms[1..]);
      GetCons(m, ms[1..], key);
      CleanMembersGet(ms[1..], key);
      if Blank(m.value) {
        if m.key == key {
          forall i | 0 <= i < |ms[1..]| ensures ms[1..][i].key != key {
            assert ms[1..][i] == ms[i + 1];
          }
          CleanMembersKeys(ms[1..]);
        }
      } else {
        GetCons(Member(m.key, CleanObject(m.value)), CleanMembers(ms[1..]), key);
      }
    }
  }

  // ---------------------------------------------------------------------
  // Post types

  /** The `type` field a post-type entry is keyed by. */
  function TypeOf(pt: Object): Value {
    Get(pt, "type")
  }

  /** The position of the first entry of type `t`. */
  function FindByType(pts: seq<Object>, t: Value): (r: Option<nat>)
    ensures r.Some? ==> r.value < |pts| && TypeOf(pts[r.value]) == t
    ensures r.Some? ==> forall j :: 0 <= j < r.value ==> TypeOf(pts[j]) != t
    ensures r.None? <==> forall j :: 0 <= j < |pts| ==> TypeOf(pts[j]) != t
  {
    if pts == [] then None
    else if TypeOf(pts[0]) == t then Some(0)
    else match FindByType(pts[1..], t)
      case None => None
      case Some(i) => Some(i + 1)
  }

  /** The default's members, each taking the user's value where the user sets that field. */
  function OverrideFields(d: Object, u: Object): (r: Object)
    ensures Keys(r) == Keys(d)
  {
    if d == [] then []
    else
      var m := if d[0].key in Keys(u) then Member(d[0].key, Get(u, d[0].key)) else d[0];
      [m] + OverrideFields(d[1..], u)
  }

  /** The user's members for fields the default does not have, in order. */
  function FieldsNotIn(u: Object, d: Object): (r: Object)
    ensures forall i :: 0 <= i < |r| ==> r[i] in u && r[i].key !in Keys(d)
  {
    if u == [] then []
    else if u[0].key in Keys(d) then FieldsNotIn(u[1..], d)
    else [u[0]] + FieldsNotIn(u[1..], d)
  }

  /** One default post type merged field by field with the user's entry of the same type. */
  function MergeFields(d: Object, u: Object): Object {
    OverrideFields(d, u) + FieldsNotIn(u, d)
  }

  /** `Get` on a concatenation: the left part is searched first. */
  lemma {:induction false} GetAppend(a: Object, b: Object, key: string)
    ensures Get(a + b, key) == if key in Keys(a) then Get(a, key) else Get(b, key)
    decreases a
  {
    if a != [] {
      assert Keys(a) == [a[0].key] + Keys(a[1..]);
      GetCons(a[0], a[1..] + b, key);
      GetCons(a[0], a[1..], key);
      assert a + b == [a[0]] + (a[1..] + b);
      GetAppend(a[1..], b, key);
    } else {
      assert a + b == b;
    }
  }

  lemma {:induction false} OverrideFieldsGet(d: Object, u: Object, key: string)
    requires key in Keys(d)
    ensures Get(OverrideFields(d, u), key) == if key in Keys(u) then Get(u, key) else Get(d, key)
    decreases d
  {
    var m := if d[0].key in Keys(u) then Member(d[0].key, Get(u, d[0].key)) else d[0];
    GetCons(m, OverrideFields(d[1..], u), key);
    GetCons(d[0], d[1..], key);
    assert d == [d[0]] + d[1..];
    if d[0].key != key {
      OverrideFieldsGet(d[1..], u, key);
    }
  }

  lemma {:induction false} FieldsNotInGet(u: Object, d: Object, key: string)
    requires key !in Keys(d)
    ensures Get(FieldsNotIn(u, d), key) == Get(u, key)
    decreases u
  {
    if u != [] {
      assert u == [u[0]] + u[1..];
      GetCons(u[0], u[1..], key);
      FieldsNotInGet(u[1..], d, key);
      if u[0].key !in Keys(d) {
        GetCons(u[0], FieldsNotIn(u[1..], d), key);
      }
    }
  }

  /**
   * Merging a default post type with the user's entry: every field reads as
   * the user's value where the user sets it, and as the default's otherwise.
   */
  lemma MergeFieldsGet(d: Object, u: Object, key: string)
    ensures Get(MergeFields(d, u), key) == if key in Keys(u) then Get(u, key) else Get(d, key)
  {
    GetAppend(OverrideFields(d, u), FieldsNotIn(u, d), key);
    if key in Keys(d) {
      OverrideFieldsGet(d, u, key);
    } else {
      FieldsNotInGet(u, d, key);
    }
  }

  /** Each default post type, merged with the user's entry of the same type when there is one. */
  function MergeDefaults(ds: seq<Object>, us: seq<Object>): (r: seq<Object>)
    ensures |r| == |ds|
    ensures forall i :: 0 <= i < |ds| ==>
      r[i] == match FindByType(us, TypeOf(ds[i])) case Some(j) => MergeFields(ds[i], us[j]) case None => ds[i]
  {
    if ds == [] then []
    else
      var d := match FindByType(us, TypeOf(ds[0])) case Some(j) => MergeFields(ds[0], us[j]) case None => ds[0];
      [d] + MergeDefaults(ds[1..], us)
  }

  /** The user's post types whose type no default has, in the user's order. */
  function UserOnly(us: seq<Object>, ds: seq<Object>): (r: seq<Object>)
    ensures forall i :: 0 <= i < |r| ==> r[i] in us && FindByType(ds, TypeOf(r[i])).None?
    ensures forall i :: 0 <= i < |us| && FindByType(ds, TypeOf(us[i])).None? ==> us[i] in r
    ensures |r| <= |us|
  {
    if us == [] then []
    else
      var rest := UserOnly(us[1..], ds);
      assert forall i :: 1 <= i < |us| ==> us[i] == us[1..][i - 1];
      if FindByType(ds, TypeOf(us[0])).Some? then rest else [us[0]] + rest
  }

  /** `UserOnly` keeps the user's order: it distributes over concatenation. */
  lemma {:induction false} UserOnlyConcat(a: seq<Object>, b: seq<Object>, ds: seq<Object>)
    ensures UserOnly(a + b, ds) == UserOnly(a, ds) + UserOnly(b, ds)
  {
    if a == [] {
      assert a + b == b;
    } else {
      assert (a + b)[0] == a[0] && (a + b)[1..] == a[1..] + b;
      UserOnlyConcat(a[1..], b, ds);
    }
  }

  /** The default post types (merged with the user's) in their order, then the user-only types. */
  function MergePostTypes(ds: seq<Object>, us: seq<Object>): (r: seq<Object>)
    ensures |r| >= |ds|
    ensures forall i :: |ds| <= i < |r| ==> r[i] in us && FindByType(ds, TypeOf(r[i])).None?
  {
    MergeDefaults(ds, us) + UserOnly(us, ds)
  }

  /**
   * `getPostTypes` merges by `type`: the defaults come first, in order,
   * each keeping its type and reading every field from the user's entry of
   * that type where the user sets it and from the default otherwise; after
   * them come the user's types that no default has.
   */
  lemma MergePostTypesSpec(ds: seq<Object>, us: seq<Object>)
    ensures var r := MergePostTypes(ds, us);
      && |r| == |ds| + |UserOnly(us, ds)|
      && (forall i :: 0 <= i < |ds| ==> TypeOf(r[i]) == TypeOf(ds[i]))
      && (forall i, key :: 0 <= i < |ds| && FindByType(us, TypeOf(ds[i])).Some? ==>
            var u := us[FindByType(us, TypeOf(ds[i])).value];
            Get(r[i], key) == if key in Keys(u) then Get(u, key) else Get(ds[i], key))
      && (forall i :: 0 <= i < |ds| && FindByType(us, TypeOf(ds[i])).None? ==> r[i] == ds[i])
      && r[|ds|..] == UserOnly(us, ds)
  {
    var r := MergePostTypes(ds, us);
    forall i | 0 <= i < |ds| ensures TypeOf(r[i]) == TypeOf(ds[i]) {
      match FindByType(us, TypeOf(ds[i]))
      case Some(j) => MergeFieldsGet(ds[i], us[j], "type");
      case None =>
    }
    forall i, key | 0 <= i < |ds| && FindByType(us, TypeOf(ds[i])).Some?
      ensures var u := us[FindByType(us, TypeOf(ds[i])).value];
        Get(r[i], key) == if key in Keys(u) then Get(u, key) else Get(ds[i], key)
    {
      MergeFieldsGet(ds[i], us[FindByType(us, TypeOf(ds[i])).value], key);
    }
  }

  /** Every type of either list appears in the merged list. */
  lemma MergePostTypesCoversTypes(ds: seq<Object>, us: seq<Object>, t: Value)
    requires FindByType(ds, t).Some? || FindByType(us, t).Some?
    ensures FindByType(MergePostTypes(ds, us), t).Some?
  {
    var r := MergePostTypes(ds, us);
    MergePostTypesSpec(ds, us);
    if FindByType(ds, t).Some? {
      var i := FindByType(ds, t).value;
      assert TypeOf(r[i]) == t;
    } else {
      var j := FindByType(us, t).value;
      assert us[j] in UserOnly(us, ds);
      assert us[j] in r[|ds|..];
      var k :| 0 <= k < |r[|ds|..]| && r[|ds|..][k] == us[j];
      assert TypeOf(r[|ds| + k]) == t;
    }
  }

  /** A JSON array whose items are all objects, as a list of objects. */
  function ObjectList(v: Value): (r: Option<seq<Object>>)
    ensures r.Some? ==> v.Arr? && |r.value| == |v.items|
    ensures r.Some? ==> forall i :: 0 <= i < |v.items| ==> v.items[i] == Obj(r.value[i])
    ensures v.Arr? && (forall i :: 0 <= i < |v.items| ==> v.items[i].Obj?) ==> r.Some?
  {
    if v.Arr? && forall i :: 0 <= i < |v.items| ==> v.items[i].Obj? then
      Some(seq(|v.items|, i requires 0 <= i < |v.items| => v.items[i].members))
    else None
  }

  /** `getPostTypes(defaults, config)`: the merged `post-types` lists of both configurations. */
  function GetPostTypes(defaults: Object, config: Object): (r: Option<seq<Object>>)
    ensures r.Some? <==> ObjectList(Get(defaults, "post-types")).Some? && ObjectList(Get(config, "post-types")).Some?
    ensures r.Some? ==> r.value == MergePostTypes(ObjectList(Get(defaults, "post-types")).value,
                                                  ObjectList(Get(config, "post-types")).value)
  {
    match (ObjectList(Get(defaults, "post-types")), ObjectList(Get(config, "post-types")))
    case (Some(ds), Some(us)) => Some(MergePostTypes(ds, us))
    case _ => None
  }

  /** An item of a `post-types` list that is an object of type `t`. */
  predicate HasType(v: Value, t: Value) {
    v.Obj? && TypeOf(v.members) == t
  }

  /** The position of the first object item of type `t`; items that are not objects are passed over. */
  function FirstOfType(items: seq<Value>, t: Value): (r: Option<nat>)
    ensures r.Some? ==> r.value < |items| && HasType(items[r.value], t)
    ensures r.Some? ==> forall j :: 0 <= j < r.value ==> !HasType(items[j], t)
    ensures r.None? <==> forall j :: 0 <= j < |items| ==> !HasType(items[j], t)
  {
    if items == [] then None
    else if HasType(items[0], t) then Some(0)
    else match FirstOfType(items[1..], t)
      case None => None
      case Some(i) => Some(i + 1)
  }

  /** `getPostTypeConfig(config, type)`: the first `post-types` entry of that type. */
  function GetPostTypeConfig(config: Object, postType: string): (r: Option<Object>)
    ensures r.Some? ==> TypeOf(r.value) == Str(postType)
    ensures r.Some? ==>
      var pts := Get(config, "post-types");
      && pts.Arr?
      && exists i :: 0 <= i < |pts.items| && pts.items[i] == Obj(r.value) &&
           forall j :: 0 <= j < i ==> !HasType(pts.items[j], Str(postType))
    ensures r.None? && Get(config, "post-types").Arr? ==>
      var items := Get(config, "post-types").items;
      forall i :: 0 <= i < |items| ==> !HasType(items[i], Str(postType))
  {
    var pts := Get(config, "post-types");
    if !pts.Arr? then None
    else
      match FirstOfType(pts.items, Str(postType))
      case None => None
      case Some(i) => Some(pts.items[i].members)
  }

  // ---------------------------------------------------------------------
  // getCategories

  /** `getCategories` given an array of categories returns that array as it is. */
  function GetCategories(categories: Value): (r: Option<seq<Value>>)
    ensures categories.Arr? ==> r == Some(categories.items)
  {
    if categories.Arr? then Some(categories.items) else None
  }
}
