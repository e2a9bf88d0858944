/**
 * The Micropub partial-update engine (section 3.4 of the W3C Micropub
 * Recommendation): a post record and an update instruction with optional
 * `replace`, `add` and `delete` parts give the updated record or a failure.
 * The model is a function on values: it returns a new record and has no
 * effect on the record it is given.
 */
module UpdateData {
  import opened Wrappers
  import opened Json

  /** mf2 properties: every property value is a sequence. */
  type Properties = map<string, seq<Value>>

  datatype Mf2 = Mf2(types: seq<string>, properties: Properties)

  /** The stored post: its post type, storage path, public URL and mf2 document. */
  datatype PostData = PostData(postType: string, path: string, url: string, mf2: Mf2)

  /** One member of a `replace` or `add` object: a property name and its values. */
  datatype Entry = Entry(name: string, values: seq<Value>)

  /**
   * The update part of a request body. `replace` and `add` are objects of
   * arrays; `delete` is the raw JSON value, either an array of property
   * names or an object from property names to the values to remove.
   */
  datatype Instruction = Instruction(replace: Option<seq<Entry>>, add: Option<seq<Entry>>, delete: Option<Value>)

  datatype UpdateError =
    | InvalidTarget                  // no post record was given
    | InvalidInstruction             // `delete` is neither a list of names nor an object
    | TypeMismatch(property: string) // a `delete` object maps `property` to a non-array

  /** The message the engine throws with for a non-array deletion list. */
  function ShouldBeArray(property: string): (m: string)
    ensures |m| > |property| && m[..|property|] == property && m[|property|..] == " should be an array"
  {
    property + " should be an array"
  }

  function Message(e: UpdateError): (m: Option<string>)
    ensures e.TypeMismatch? <==> m.Some?
  {
    if e.TypeMismatch? then Some(ShouldBeArray(e.property)) else None
  }

  /** What the engine promises of a well-formed document: no property is mapped to no values. */
  predicate NoEmptyProperties(props: Properties) {
    forall k :: k in props ==> props[k] != []
  }

  function NameSet(entries: seq<Entry>): set<string> {
    set e | e in entries :: e.name
  }

  /** An instruction object as parsed from JSON: no property named twice. */
  predicate DistinctNames(entries: seq<Entry>) {
    forall i, j :: 0 <= i < j < |entries| ==> entries[i].name != entries[j].name
  }

  // ---------------------------------------------------------------------
  // Sequence helpers

  /** The values of `vs` that are not listed in `remove`, in their original order. */
  function Without(vs: seq<Value>, remove: seq<Value>): (r: seq<Value>)
    ensures forall v :: v in r <==> v in vs && v !in remove
    ensures |r| <= |vs|
  {
    if vs == [] then []
    else if vs[0] in remove then Without(vs[1..], remove)
    else [vs[0]] + Without(vs[1..], remove)
  }

  /** Removing values keeps the order of what is left: it distributes over concatenation. */
  lemma {:induction false} WithoutConcat(a: seq<Value>, b: seq<Value>, remove: seq<Value>)
    ensures Without(a + b, remove) == Without(a, remove) + Without(b, remove)
  {
    if a != [] {
      assert (a + b)[0] == a[0] && (a + b)[1..] == a[1..] + b;
      WithoutConcat(a[1..], b, remove);
    } else {
      assert a + b == b;
    }
  }

  /** Removing the same values a second time changes nothing. */
  lemma {:induction false} WithoutIdempotent(vs: seq<Value>, remove: seq<Value>)
    ensures Without(Without(vs, remove), remove) == Without(vs, remove)
  {
    if vs != [] {
      WithoutIdempotent(vs[1..], remove);
    }
  }

  // ---------------------------------------------------------------------
  // The three operations

  /** `replace`: each named property gets exactly the given values, created if absent. */
  function ReplaceEntries(props: Properties, entries: seq<Entry>): (r: Properties)
    ensures r.Keys == props.Keys + NameSet(entries)
    ensures forall k :: k in props && k !in NameSet(entries) ==> r[k] == props[k]
    decreases |entries|
  {
    if entries == [] then props
    else
      var e := entries[0];
      assert NameSet(entries) == {e.name} + NameSet(entries[1..]);
      ReplaceEntries(props[e.name := e.values], entries[1..])
  }

  /** With distinct names, every replaced property holds exactly its new values. */
  lemma {:induction false} ReplaceEntriesSets(props: Properties, entries: seq<Entry>, i: nat)
    requires DistinctNames(entries) && i < |entries|
    ensures ReplaceEntries(props, entries)[entries[i].name] == entries[i].values
    decreases |entries|
  {
    var e := entries[0];
    assert NameSet(entries) == {e.name} + NameSet(entries[1..]);
    if i > 0 {
      ReplaceEntriesSets(props[e.name := e.values], entries[1..], i - 1);
    } else {
      assert e.name !in NameSet(entries[1..]) by {
        forall e' | e' in entries[1..] ensures e'.name != e.name {
          var j :| 0 <= j < |entries[1..]| && entries[1..][j] == e';
          assert entries[j + 1] == e';
        }
      }
    }
  }

  /** `replace` with non-empty value lists leaves no property without values. */
  lemma {:induction false} ReplaceEntriesNonEmpty(props: Properties, entries: seq<Entry>)
    requires NoEmptyProperties(props)
    requires forall e :: e in entries ==> e.values != []
    ensures NoEmptyProperties(ReplaceEntries(props, entries))
    decreases |entries|
  {
    if entries != [] {
      ReplaceEntriesNonEmpty(props[entries[0].name := entries[0].values], entries[1..]);
    }
  }

  /** `add`: the given values are appended to a property, which is created if absent. */
  function AddEntries(props: Properties, entries: seq<Entry>): (r: Properties)
    ensures r.Keys == props.Keys + NameSet(entries)
    ensures forall k :: k in props && k !in NameSet(entries) ==> r[k] == props[k]
    decreases |entries|
  {
    if entries == [] then props
    else
      var e := entries[0];
      var existing := if e.name in props then props[e.name] else [];
      assert NameSet(entries) == {e.name} + NameSet(entries[1..]);
      AddEntries(props[e.name := existing + e.values], entries[1..])
  }

  /** With distinct names, every added-to property holds its old values followed by the new ones. */
  lemma {:induction false} AddEntriesAppends(props: Properties, entries: seq<Entry>, i: nat)
    requires DistinctNames(entries) && i < |entries|
    ensures AddEntries(props, entries)[entries[i].name] ==
      (if entries[i].name in props then props[entries[i].name] else []) + entries[i].values
    decreases |entries|
  {
    var e := entries[0];
    var existing := if e.name in props then props[e.name] else [];
    assert NameSet(entries) == {e.name} + NameSet(entries[1..]);
    if i > 0 {
      assert entries[i].name != e.name;
      AddEntriesAppends(props[e.name := existing + e.values], entries[1..], i - 1);
    } else {
      assert e.name !in NameSet(entries[1..]) by {
        forall e' | e' in entries[1..] ensures e'.name != e.name {
          var j :| 0 <= j < |entries[1..]| && entries[1..][j] == e';
          assert entries[j + 1] == e';
        }
      }
    }
  }

  /** `add` with non-empty value lists leaves no property without values. */
  lemma {:induction false} AddEntriesNonEmpty(props: Properties, entries: seq<Entry>)
    requires NoEmptyProperties(props)
    requires forall e :: e in entries ==> e.values != []
    ensures NoEmptyProperties(AddEntries(props, entries))
    decreases |entries|
  {
    if entries != [] {
      var e := entries[0];
      var existing := if e.name in props then props[e.name] else [];
      AddEntriesNonEmpty(props[e.name := existing + e.values], entries[1..]);
    }
  }

  /** `delete` with a list of names: each named property is removed, absent names are ignored. */
  function DeleteProperties(props: Properties, names: seq<string>): (r: Properties)
    ensures r.Keys == props.Keys - set n | n in names
    ensures forall k :: k in r ==> r[k] == props[k]
    decreases |names|
  {
    if names == [] then props
    else
      assert (set n | n in names) == {names[0]} + set n | n in names[1..];
      DeleteProperties(props - {names[0]}, names[1..])
  }

  /** Index of the first member of a `delete` object whose value is not an array. */
  function FirstNonArray(ms: seq<Member>): (r: Option<nat>)
    ensures r.Some? ==> r.value < |ms| && !ms[r.value].value.Arr?
    ensures r.Some? ==> forall j :: 0 <= j < r.value ==> ms[j].value.Arr?
    ensures r.None? <==> forall j :: 0 <= j < |ms| ==> ms[j].value.Arr?
  {
    if ms == [] then None
    else if !ms[0].value.Arr? then Some(0)
    else match FirstNonArray(ms[1..])
      case None => None
      case Some(i) => Some(i + 1)
  }

  /** The property names a `delete` object lists. */
  function MemberKeys(ms: seq<Member>): set<string> {
    set m | m in ms :: m.key
  }

  /** Removes the listed values of one property; a property left with no values is removed. */
  function DeleteValuesOf(props: Properties, name: string, remove: seq<Value>): Properties {
    if name !in props then props
    else
      var left := Without(props[name], remove);
      if left == [] then props - {name} else props[name := left]
  }

  /**
   * `delete` with an object of arrays, every member of which is already
   * known to be an array: the members are processed in order.
   */
  function DeleteValueLists(props: Properties, ms: seq<Member>): (r: Properties)
    requires forall j :: 0 <= j < |ms| ==> ms[j].value.Arr?
    ensures r.Keys <= props.Keys
    ensures NoEmptyProperties(props) ==> NoEmptyProperties(r)
    ensures forall k :: k in props && k !in MemberKeys(ms) ==> k in r && r[k] == props[k]
    ensures DistinctKeys(ms) ==> forall i :: 0 <= i < |ms| && ms[i].key in props ==>
      var left := Without(props[ms[i].key], ms[i].value.items);
      (left == [] ==> ms[i].key !in r) && (left != [] ==> ms[i].key in r && r[ms[i].key] == left)
    decreases |ms|
  {
    if ms == [] then props
    else
      var m := ms[0];
      var next := DeleteValuesOf(props, m.key, m.value.items);
      assert MemberKeys(ms) == {m.key} + MemberKeys(ms[1..]);
      var r := DeleteValueLists(next, ms[1..]);
      assert DistinctKeys(ms) ==> DistinctKeys(ms[1..]) && m.key !in MemberKeys(ms[1..]) by {
        if DistinctKeys(ms) {
          forall m' | m' in ms[1..] ensures m'.key != m.key {
            var j :| 0 <= j < |ms[1..]| && ms[1..][j] == m';
            assert ms[j + 1] == m';
          }
        }
      }
      r
  }

  /**
   * `delete` with an object: fails with the first non-array member before
   * anything is removed, otherwise removes the listed values.
   */
  function DeleteEntries(props: Properties, ms: seq<Member>): (r: Result<Properties, UpdateError>)
    ensures r.Err? <==> exists j :: 0 <= j < |ms| && !ms[j].value.Arr?
    ensures r.Err? ==> exists j :: 0 <= j < |ms| && !ms[j].value.Arr? && r.error == TypeMismatch(ms[j].key) &&
                                  forall i :: 0 <= i < j ==> ms[i].value.Arr?
  {
    match FirstNonArray(ms)
    case Some(j) => Err(TypeMismatch(ms[j].key))
    case None => Ok(DeleteValueLists(props, ms))
  }

  /** All items of a `delete` array are property names. */
  predicate AllNames(items: seq<Value>) {
    forall i :: 0 <= i < |items| ==> items[i].Str?
  }

  function Names(items: seq<Value>): (ns: seq<string>)
    requires AllNames(items)
    ensures |ns| == |items|
    ensures forall i :: 0 <= i < |items| ==> ns[i] == items[i].s
  {
    if items == [] then [] else [items[0].s] + Names(items[1..])
  }

  /** The delete pass: dispatches on the shape of the `delete` value. */
  function ApplyDelete(props: Properties, delete: Value): (r: Result<Properties, UpdateError>)
    ensures r.Ok? ==> r.value.Keys <= props.Keys
    ensures r.Ok? && NoEmptyProperties(props) ==> NoEmptyProperties(r.value)
    ensures r.Err? ==> r.error != InvalidTarget
  {
    match delete
    case Arr(items) =>
      if AllNames(items) then Ok(DeleteProperties(props, Names(items))) else Err(InvalidInstruction)
    case Obj(ms) => DeleteEntries(props, ms)
    case _ => Err(InvalidInstruction)
  }

  /**
   * `updateData`: the delete pass, then replace, then add, on the post's
   * properties. Everything but `mf2.properties` is carried over unchanged;
   * a missing post record and an ill-formed `delete` are the only failures.
   */
  function UpdatePost(post: Option<PostData>, ins: Instruction): (r: Result<PostData, UpdateError>)
    ensures post.None? ==> r == Err(InvalidTarget)
    ensures post.Some? && ins.delete.None? ==> r.Ok?
    ensures r.Ok? ==> post.Some? && r.value == post.value.(mf2 := post.value.mf2.(properties := r.value.mf2.properties))
  {
    match post
    case None => Err(InvalidTarget)
    case Some(p) =>
      var deleted :- if ins.delete.Some? then ApplyDelete(p.mf2.properties, ins.delete.value) else Ok(p.mf2.properties);
      var replaced := if ins.replace.Some? then ReplaceEntries(deleted, ins.replace.value) else deleted;
      var added := if ins.add.Some? then AddEntries(replaced, ins.add.value) else replaced;
      Ok(p.(mf2 := p.mf2.(properties := added)))
  }

  // ---------------------------------------------------------------------
  // Properties of single-operation instructions

  function ReplaceOnly(entries: seq<Entry>): Instruction {
    Instruction(Some(entries), None, None)
  }

  function AddOnly(entries: seq<Entry>): Instruction {
    Instruction(None, Some(entries), None)
  }

  function DeleteOnly(delete: Value): Instruction {
    Instruction(None, None, Some(delete))
  }

  /** A `delete` array naming the given properties. */
  function NameList(names: seq<string>): (v: Value)
    ensures v.Arr? && AllNames(v.items) && Names(v.items) == names
  {
    var items := seq(|names|, i requires 0 <= i < |names| => Str(names[i]));
    assert Names(items) == names;
    Arr(items)
  }

  /** `replace: {k: vs}` sets `k` to exactly `vs`, whatever it held before, and leaves other properties alone. */
  lemma ReplaceSetsValues(post: PostData, entries: seq<Entry>)
    requires DistinctNames(entries)
    ensures var r := UpdatePost(Some(post), ReplaceOnly(entries));
      && r.Ok?
      && r.value.mf2.properties.Keys == post.mf2.properties.Keys + NameSet(entries)
      && (forall i :: 0 <= i < |entries| ==> r.value.mf2.properties[entries[i].name] == entries[i].values)
      && (forall k :: k in post.mf2.properties && k !in NameSet(entries) ==>
            r.value.mf2.properties[k] == post.mf2.properties[k])
  {
    forall i | 0 <= i < |entries| {
      ReplaceEntriesSets(post.mf2.properties, entries, i);
    }
  }

  /** Applying the same `replace` twice gives the same post as applying it once. */
  lemma ReplaceIdempotent(post: PostData, entries: seq<Entry>)
    requires DistinctNames(entries)
    ensures var once := UpdatePost(Some(post), ReplaceOnly(entries));
      once.Ok? && UpdatePost(Some(once.value), ReplaceOnly(entries)) == once
  {
    var p1 := ReplaceEntries(post.mf2.properties, entries);
    var p2 := ReplaceEntries(p1, entries);
    forall k | k in p2 ensures p2[k] == p1[k] {
      if k in NameSet(entries) {
        var i :| 0 <= i < |entries| && entries[i].name == k;
        ReplaceEntriesSets(post.mf2.properties, entries, i);
        ReplaceEntriesSets(p1, entries, i);
      }
    }
    assert p2 == p1;
  }

  /**
   * `add: {k: vs}` appends `vs` after the values `k` already has, or
   * creates `k` with `vs`; other properties are left alone.
   */
  lemma AddAppendsValues(post: PostData, entries: seq<Entry>)
    requires DistinctNames(entries)
    ensures var props := post.mf2.properties;
      var r := UpdatePost(Some(post), AddOnly(entries));
      && r.Ok?
      && r.value.mf2.properties.Keys == props.Keys + NameSet(entries)
      && (forall i :: 0 <= i < |entries| && entries[i].name in props ==>
            r.value.mf2.properties[entries[i].name] == props[entries[i].name] + entries[i].values)
      && (forall i :: 0 <= i < |entries| && entries[i].name !in props ==>
            r.value.mf2.properties[entries[i].name] == entries[i].values)
      && (forall k :: k in props && k !in NameSet(entries) ==> r.value.mf2.properties[k] == props[k])
  {
    var r := AddEntries(post.mf2.properties, entries);
    forall i | 0 <= i < |entries|
      ensures r[entries[i].name] ==
        (if entries[i].name in post.mf2.properties then post.mf2.properties[entries[i].name] else []) + entries[i].values
    {
      AddEntriesAppends(post.mf2.properties, entries, i);
    }
    forall i | 0 <= i < |entries| && entries[i].name !in post.mf2.properties
      ensures r[entries[i].name] == entries[i].values
    {
      assert [] + entries[i].values == entries[i].values;
    }
  }

  /** `delete: [k, ...]` removes each named property entirely and nothing else. */
  lemma DeleteNamesRemoves(post: PostData, names: seq<string>)
    ensures var props := post.mf2.properties;
      var r := UpdatePost(Some(post), DeleteOnly(NameList(names)));
      && r.Ok?
      && r.value.mf2.properties.Keys == props.Keys - set n | n in names
      && (forall k :: k in r.value.mf2.properties ==> r.value.mf2.properties[k] == props[k])
  {
  }

  /**
   * `delete: {k: vs, ...}` with arrays only: a listed property loses exactly
   * the listed values and keeps the rest in order, and is removed when no
   * value is left; a listed property the post lacks is not created; an
   * unlisted property is unchanged.
   */
  lemma DeleteValuesRemovesListed(post: PostData, ms: seq<Member>)
    requires DistinctKeys(ms)
    requires forall j :: 0 <= j < |ms| ==> ms[j].value.Arr?
    ensures var props := post.mf2.properties;
      var r := UpdatePost(Some(post), DeleteOnly(Obj(ms)));
      && r.Ok?
      && r.value.mf2.properties.Keys <= props.Keys
      && (forall k :: k in props && k !in MemberKeys(ms) ==>
            k in r.value.mf2.properties && r.value.mf2.properties[k] == props[k])
      && (forall i :: 0 <= i < |ms| && ms[i].key in props ==>
            var left := Without(props[ms[i].key], ms[i].value.items);
            && (left == [] ==> ms[i].key !in r.value.mf2.properties)
            && (left != [] ==> ms[i].key in r.value.mf2.properties && r.value.mf2.properties[ms[i].key] == left))
  {
  }

  /** A `delete` object that names only properties the post lacks leaves the post exactly as it was. */
  lemma DeleteAbsentIsNoOp(post: PostData, ms: seq<Member>)
    requires forall j :: 0 <= j < |ms| ==> ms[j].value.Arr? && ms[j].key !in post.mf2.properties
    ensures UpdatePost(Some(post), DeleteOnly(Obj(ms))) == Ok(post)
  {
    var props := post.mf2.properties;
    var r := DeleteValueLists(props, ms);
    forall k | k in props ensures k in r && r[k] == props[k] {
      assert k !in MemberKeys(ms);
    }
    assert r == props;
  }

  /**
   * A `delete` object with a non-array member fails, naming the first such
   * member: "<k> should be an array".
   */
  lemma DeleteNonArrayFails(post: PostData, ms: seq<Member>, j: nat)
    requires j < |ms| && !ms[j].value.Arr?
    requires forall i :: 0 <= i < j ==> ms[i].value.Arr?
    ensures var r := UpdatePost(Some(post), DeleteOnly(Obj(ms)));
      r == Err(TypeMismatch(ms[j].key)) && Message(r.error) == Some(ms[j].key + " should be an array")
  {
    var f := FirstNonArray(ms);
    assert f.Some?;
    assert f.value == j;
  }

  /**
   * A `delete` that is neither a list of property names nor an object is
   * rejected as a whole, before `replace` or `add` are looked at.
   */
  lemma DeleteMalformedFails(post: PostData, ins: Instruction)
    requires ins.delete.Some?
    requires !(ins.delete.value.Arr? && AllNames(ins.delete.value.items)) && !ins.delete.value.Obj?
    ensures UpdatePost(Some(post), ins) == Err(InvalidInstruction)
  {
  }

  /** A missing post record fails, whatever the instruction. */
  lemma MissingPostFails(ins: Instruction)
    ensures UpdatePost(None, ins).Err? && UpdatePost(None, ins).error == InvalidTarget
  {
  }

  /**
   * No update leaves a property mapped to no values, as long as the post had
   * none and `replace` and `add` give every property at least one value.
   */
  lemma UpdateKeepsPropertiesNonEmpty(post: PostData, ins: Instruction)
    requires NoEmptyProperties(post.mf2.properties)
    requires ins.replace.Some? ==> forall e :: e in ins.replace.value ==> e.values != []
    requires ins.add.Some? ==> forall e :: e in ins.add.value ==> e.values != []
    ensures var r := UpdatePost(Some(post), ins);
      r.Ok? ==> NoEmptyProperties(r.value.mf2.properties)
  {
    var r := UpdatePost(Some(post), ins);
    if r.Ok? {
      var deleted := if ins.delete.Some? then ApplyDelete(post.mf2.properties, ins.delete.value).value
                     else post.mf2.properties;
      var replaced := if ins.replace.Some? then ReplaceEntries(deleted, ins.replace.value) else deleted;
      if ins.replace.Some? {
        ReplaceEntriesNonEmpty(deleted, ins.replace.value);
      }
      if ins.add.Some? {
        AddEntriesNonEmpty(replaced, ins.add.value);
      }
    }
  }
}
