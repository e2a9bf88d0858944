/** The support utilities on the values their tests use. */
module SupportExamples {
  import opened Wrappers
  import opened Json
  import opened Support

  lemma ExampleAddToArray()
    ensures AddToArray(None, Str("baz")) == [Str("baz")]
    ensures AddToArray(Some([Str("foo"), Str("bar")]), Str("baz")) == [Str("foo"), Str("bar"), Str("baz")]
  {
  }

  lemma CleanArrayCons(x: Value, t: seq<Value>)
    ensures CleanArray([x] + t) == if Blank(x) then CleanArray(t) else [x] + CleanArray(t)
  {
    assert ([x] + t)[1..] == t;
  }

  lemma CleanItemsCons(x: Value, t: seq<Value>)
    ensures CleanItems([x] + t) == if Blank(x) then CleanItems(t) else [CleanObject(x)] + CleanItems(t)
  {
    assert ([x] + t)[1..] == t;
  }

  lemma CleanMembersCons(m: Member, t: seq<Member>)
    ensures CleanMembers([m] + t) ==
      if Blank(m.value) then CleanMembers(t) else [Member(m.key, CleanObject(m.value))] + CleanMembers(t)
  {
    assert ([m] + t)[1..] == t;
  }

  lemma CleanArrayFront()
    ensures CleanArray([Num(1), Null, Num(2)]) == [Num(1), Num(2)]
  {
    CleanArrayCons(Num(2), []);
    CleanArrayCons(Null, [Num(2)]);
    CleanArrayCons(Num(1), [Null, Num(2)]);
  }

  lemma CleanArrayBack()
    ensures CleanArray([Undefined, Num(3), Bool(false), Str("")]) == [Num(3)]
  {
    CleanArrayCons(Str(""), []);
    CleanArrayCons(Bool(false), [Str("")]);
    CleanArrayCons(Num(3), [Bool(false), Str("")]);
    CleanArrayCons(Undefined, [Num(3), Bool(false), Str("")]);
  }

  /** The blank items of the test array are dropped and the others kept in order. */
  lemma ExampleCleanArray()
    ensures CleanArray([Num(1), Null, Num(2), Undefined, Num(3), Bool(false), Str("")]) == [Num(1), Num(2), Num(3)]
  {
    CleanArrayFront();
    CleanArrayBack();
    CleanArrayConcat([Num(1), Null, Num(2)], [Undefined, Num(3), Bool(false), Str("")]);
    assert [Num(1), Null, Num(2)] + [Undefined, Num(3), Bool(false), Str("")]
        == [Num(1), Null, Num(2), Undefined, Num(3), Bool(false), Str("")];
  }

  /** The members every level of the `cleanObject` test object has, before and after cleaning. */
  function Leaf(): seq<Member> {
    [Member("key", Str("value")), Member("empty", Str("")), Member("true", Bool(true)),
     Member("false", Bool(false)), Member("null", Null), Member("undefined", Undefined)]
  }

  function CleanLeaf(): seq<Member> {
    [Member("key", Str("value")), Member("true", Bool(true))]
  }

  /** The leaf members lose `empty`, `false`, `null` and `undefined`, whatever follows them. */
  lemma CleanLeafMembers(t: seq<Member>)
    ensures CleanMembers(Leaf() + t) == CleanLeaf() + CleanMembers(t)
  {
    var m0, m1, m2, m3, m4, m5 := Member("key", Str("value")), Member("empty", Str("")), Member("true", Bool(true)),
      Member("false", Bool(false)), Member("null", Null), Member("undefined", Undefined);
    CleanMembersCons(m5, t);
    CleanMembersCons(m4, [m5] + t);
    CleanMembersCons(m3, [m4] + ([m5] + t));
    CleanMembersCons(m2, [m3] + ([m4] + ([m5] + t)));
    CleanMembersCons(m1, [m2] + ([m3] + ([m4] + ([m5] + t))));
    CleanMembersCons(m0, [m1] + ([m2] + ([m3] + ([m4] + ([m5] + t)))));
    assert Leaf() + t == [m0] + ([m1] + ([m2] + ([m3] + ([m4] + ([m5] + t)))));
  }

  lemma CleanTestItems()
    ensures CleanItems([Num(1), Null, Num(2), Undefined, Num(3), Bool(false)]) == [Num(1), Num(2), Num(3)]
  {
    CleanItemsCons(Bool(false), []);
    CleanItemsCons(Num(3), [Bool(false)]);
    CleanItemsCons(Undefined, [Num(3)] + [Bool(false)]);
    CleanItemsCons(Num(2), [Undefined] + ([Num(3)] + [Bool(false)]));
    CleanItemsCons(Null, [Num(2)] + ([Undefined] + ([Num(3)] + [Bool(false)])));
    CleanItemsCons(Num(1), [Null] + ([Num(2)] + ([Undefined] + ([Num(3)] + [Bool(false)]))));
    assert [Num(1), Null, Num(2), Undefined, Num(3), Bool(false)]
        == [Num(1)] + ([Null] + ([Num(2)] + ([Undefined] + ([Num(3)] + [Bool(false)]))));
  }

  /** The `object` member: its leaf members and its `nested` object are cleaned. */
  lemma CleanTestInner()
    ensures CleanObject(Obj(Leaf() + [Member("nested", Obj(Leaf()))]))
         == Obj(CleanLeaf() + [Member("nested", Obj(CleanLeaf()))])
  {
    var nested := Member("nested", Obj(Leaf()));
    CleanLeafMembers([]);
    assert Leaf() + [] == Leaf();
    assert CleanObject(nested.value) == Obj(CleanLeaf());
    CleanMembersCons(nested, []);
    assert CleanMembers([nested]) == [Member("nested", Obj(CleanLeaf()))];
    CleanLeafMembers([nested]);
  }

  /** The test object is cleaned at all three levels and in its array. */
  lemma ExampleCleanObject()
    ensures CleanObject(Obj([Member("array", Arr([Num(1), Null, Num(2), Undefined, Num(3), Bool(false)]))] + Leaf() +
                            [Member("object", Obj(Leaf() + [Member("nested", Obj(Leaf()))]))]))
         == Obj([Member("array", Arr([Num(1), Num(2), Num(3)]))] + CleanLeaf() +
                [Member("object", Obj(CleanLeaf() + [Member("nested", Obj(CleanLeaf()))]))])
  {
    var inner := Member("object", Obj(Leaf() + [Member("nested", Obj(Leaf()))]));
    var arrayMember := Member("array", Arr([Num(1), Null, Num(2), Undefined, Num(3), Bool(false)]));
    CleanTestItems();
    CleanTestInner();
    CleanMembersCons(inner, []);
    CleanLeafMembers([inner]);
    CleanMembersCons(arrayMember, Leaf() + [inner]);
    assert [arrayMember] + Leaf() + [inner] == [arrayMember] + (Leaf() + [inner]);
  }

  lemma ExampleGetCategories()
    ensures GetCategories(Arr([Str("foo"), Str("bar")])) == Some([Str("foo"), Str("bar")])
  {
  }

  /** The entry of the requested type is found, and its `name` read from it. */
  lemma ExampleGetPostTypeConfig()
    ensures var note := [Member("type", Str("note")), Member("name", Str("Note"))];
      var photo := [Member("type", Str("photo")), Member("name", Str("Photo"))];
      var r := GetPostTypeConfig([Member("post-types", Arr([Obj(note), Obj(photo)]))], "note");
      r == Some(note) && Get(r.value, "name") == Str("Note")
  {
    var note := [Member("type", Str("note")), Member("name", Str("Note"))];
    var photo := [Member("type", Str("photo")), Member("name", Str("Photo"))];
    var config := [Member("post-types", Arr([Obj(note), Obj(photo)]))];
    GetCons(config[0], [], "post-types");
    assert config == [config[0]] + [];
    assert Get(config, "post-types") == Arr([Obj(note), Obj(photo)]);
    assert note == [note[0]] + note[1..] && note[1..] == [note[1]] + [];
    GetCons(note[0], note[1..], "type");
    GetCons(note[0], note[1..], "name");
    GetCons(note[1], [], "name");
    assert TypeOf(note) == Str("note");
    assert HasType(Obj(note), Str("note"));
    assert FirstOfType([Obj(note), Obj(photo)], Str("note")) == Some(0);
  }

  // getPostTypes: the default and the user post types of the test

  function DefaultNote(): Object { [Member("type", Str("note")), Member("name", Str("Note")), Member("icon", Str(":notebook_with_decorative_cover:"))] }
  function DefaultPhoto(): Object { [Member("type", Str("photo")), Member("name", Str("Photo")), Member("icon", Str(":camera:"))] }
  function UserNote(): Object { [Member("type", Str("note")), Member("name", Str("Memo")), Member("icon", Str(":memo:"))] }
  function UserPhoto(): Object { [Member("type", Str("photo")), Member("name", Str("Picture"))] }
  function UserOverheard(): Object { [Member("type", Str("overheard")), Member("name", Str("Overheard")), Member("icon", Str(":speech_balloon:"))] }

  lemma TypeOfFirst(t: Value, rest: Object)
    ensures TypeOf([Member("type", t)] + rest) == t
  {
    GetCons(Member("type", t), rest, "type");
  }

  lemma MergePhoto()
    ensures MergeFields(DefaultPhoto(), UserPhoto()) == MergedPhoto()
  {
    var u := UserPhoto();
    assert Keys(u) == ["type", "name"];
    assert u == [u[0]] + [u[1]] && [u[1]] == [u[1]] + [];
    GetCons(u[0], [u[1]], "type");
    GetCons(u[0], [u[1]], "name");
    GetCons(u[1], [], "name");
    var d := DefaultPhoto();
    assert d[1..] == [d[1], d[2]] && d[1..][1..] == [d[2]] && d[1..][1..][1..] == [];
    assert OverrideFields(d, u) == MergedPhoto();
    assert Keys(d) == ["type", "name", "icon"];
    assert u[1..] == [u[1]] && u[1..][1..] == [];
    assert FieldsNotIn(u, d) == [];
  }

  lemma GetNote()
    ensures Get(UserNote(), "type") == Str("note") && Get(UserNote(), "name") == Str("Memo") && Get(UserNote(), "icon") == Str(":memo:")
  {
    var u := UserNote();
    assert u == [u[0]] + u[1..] && u[1..] == [u[1]] + u[2..] && u[2..] == [u[2]] + [];
    GetCons(u[0], u[1..], "type");
    GetCons(u[0], u[1..], "name");
    GetCons(u[1], u[2..], "name");
    GetCons(u[0], u[1..], "icon");
    GetCons(u[1], u[2..], "icon");
    GetCons(u[2], [], "icon");
  }

  lemma OverrideNote()
    ensures OverrideFields(DefaultNote(), UserNote()) == UserNote()
  {
    var u := UserNote();
    var d := DefaultNote();
    GetNote();
    assert Keys(u) == ["type", "name", "icon"];
    assert d[1..][1..] == [d[2]] && d[1..][1..][1..] == [];
    assert OverrideFields(d[1..][1..], u) == [u[2]];
    assert d[1..] == [d[1], d[2]];
    assert OverrideFields(d[1..], u) == [u[1], u[2]];
  }

  lemma MergeNote()
    ensures MergeFields(DefaultNote(), UserNote()) == UserNote()
  {
    var u := UserNote();
    var d := DefaultNote();
    OverrideNote();
    assert Keys(d) == ["type", "name", "icon"];
    assert u[1..] == [u[1], u[2]] && u[1..][1..] == [u[2]] && u[1..][1..][1..] == [];
    assert FieldsNotIn(u, d) == [];
  }

  lemma FindTypes()
    ensures FindByType([UserNote(), UserPhoto(), UserOverheard()], Str("note")) == Some(0)
    ensures FindByType([UserNote(), UserPhoto(), UserOverheard()], Str("photo")) == Some(1)
    ensures FindByType([DefaultNote(), DefaultPhoto()], Str("note")).Some?
    ensures FindByType([DefaultNote(), DefaultPhoto()], Str("photo")).Some?
    ensures FindByType([DefaultNote(), DefaultPhoto()], Str("overheard")).None?
  {
    TypeOfFirst(Str("note"), UserNote()[1..]);
    TypeOfFirst(Str("photo"), UserPhoto()[1..]);
    TypeOfFirst(Str("overheard"), UserOverheard()[1..]);
    TypeOfFirst(Str("note"), DefaultNote()[1..]);
    TypeOfFirst(Str("photo"), DefaultPhoto()[1..]);
    assert UserNote() == [Member("type", Str("note"))] + UserNote()[1..];
    assert UserPhoto() == [Member("type", Str("photo"))] + UserPhoto()[1..];
    assert UserOverheard() == [Member("type", Str("overheard"))] + UserOverheard()[1..];
    assert DefaultNote() == [Member("type", Str("note"))] + DefaultNote()[1..];
    assert DefaultPhoto() == [Member("type", Str("photo"))] + DefaultPhoto()[1..];
    assert [UserNote(), UserPhoto(), UserOverheard()][1..] == [UserPhoto(), UserOverheard()];
    assert [DefaultNote(), DefaultPhoto()][1..] == [DefaultPhoto()] && [DefaultPhoto()][1..] == [];
  }

  /** The user's photo entry keeps the default icon it does not set. */
  function MergedPhoto(): Object { [Member("type", Str("photo")), Member("name", Str("Picture")), Member("icon", Str(":camera:"))] }

  lemma TypesOfTest()
    ensures TypeOf(DefaultNote()) == Str("note") && TypeOf(DefaultPhoto()) == Str("photo")
    ensures TypeOf(UserNote()) == Str("note") && TypeOf(UserPhoto()) == Str("photo") && TypeOf(UserOverheard()) == Str("overheard")
  {
    TypeOfFirst(Str("note"), DefaultNote()[1..]);
    TypeOfFirst(Str("photo"), DefaultPhoto()[1..]);
    TypeOfFirst(Str("note"), UserNote()[1..]);
    TypeOfFirst(Str("photo"), UserPhoto()[1..]);
    TypeOfFirst(Str("overheard"), UserOverheard()[1..]);
    assert DefaultNote() == [Member("type", Str("note"))] + DefaultNote()[1..];
    assert DefaultPhoto() == [Member("type", Str("photo"))] + DefaultPhoto()[1..];
    assert UserNote() == [Member("type", Str("note"))] + UserNote()[1..];
    assert UserPhoto() == [Member("type", Str("photo"))] + UserPhoto()[1..];
    assert UserOverheard() == [Member("type", Str("overheard"))] + UserOverheard()[1..];
  }

  lemma MergeDefaultsPhoto()
    ensures MergeDefaults([DefaultPhoto()], [UserNote(), UserPhoto(), UserOverheard()]) == [MergedPhoto()]
  {
    FindTypes();
    TypesOfTest();
    MergePhoto();
    assert [DefaultPhoto()][1..] == [];
  }

  lemma MergeDefaultsTest()
    ensures MergeDefaults([DefaultNote(), DefaultPhoto()], [UserNote(), UserPhoto(), UserOverheard()]) == [UserNote(), MergedPhoto()]
  {
    var ds := [DefaultNote(), DefaultPhoto()];
    FindTypes();
    TypesOfTest();
    MergeNote();
    MergeDefaultsPhoto();
    assert ds[1..] == [DefaultPhoto()];
  }

  lemma UserOnlyTest()
    ensures UserOnly([UserNote(), UserPhoto(), UserOverheard()], [DefaultNote(), DefaultPhoto()]) == [UserOverheard()]
  {
    var ds := [DefaultNote(), DefaultPhoto()];
    var us := [UserNote(), UserPhoto(), UserOverheard()];
    FindTypes();
    TypesOfTest();
    assert us[1..] == [UserPhoto(), UserOverheard()] && us[1..][1..] == [UserOverheard()] && us[1..][1..][1..] == [];
    assert UserOnly(us[1..][1..], ds) == [UserOverheard()];
    assert UserOnly(us[1..], ds) == [UserOverheard()];
  }

  lemma MergePostTypesTest()
    ensures MergePostTypes([DefaultNote(), DefaultPhoto()], [UserNote(), UserPhoto(), UserOverheard()]) == [UserNote(), MergedPhoto(), UserOverheard()]
  {
    MergeDefaultsTest();
    UserOnlyTest();
  }

  /**
   * The defaults come first, each overridden field by field by the user's
   * entry of its type; the user-only type comes last.
   */
  lemma ExampleGetPostTypes()
    ensures GetPostTypes([Member("post-types", Arr([Obj(DefaultNote()), Obj(DefaultPhoto())]))],
                         [Member("post-types", Arr([Obj(UserNote()), Obj(UserPhoto()), Obj(UserOverheard())]))])
         == Some([UserNote(), MergedPhoto(), UserOverheard()])
  {
    var defaults := [Member("post-types", Arr([Obj(DefaultNote()), Obj(DefaultPhoto())]))];
    var config := [Member("post-types", Arr([Obj(UserNote()), Obj(UserPhoto()), Obj(UserOverheard())]))];
    GetCons(defaults[0], [], "post-types");
    GetCons(config[0], [], "post-types");
    assert defaults == [defaults[0]] + [] && config == [config[0]] + [];
    assert ObjectList(Arr([Obj(DefaultNote()), Obj(DefaultPhoto())])).value == [DefaultNote(), DefaultPhoto()];
    assert ObjectList(Arr([Obj(UserNote()), Obj(UserPhoto()), Obj(UserOverheard())])).value == [UserNote(), UserPhoto(), UserOverheard()];
    MergePostTypesTest();
  }
}
