/**
 * The update engine on the post record that the update-data tests start
 * from: a note with content, a publication date, two categories and a slug.
 */
module UpdateExamples {
  import opened Wrappers
  import opened Json
  import opened UpdateData

  function Note(): PostData {
    PostData("note", "foo.md", "https://website.example/foo",
      Mf2(["h-entry"], map[
        "content" := [Str("hello world")],
        "published" := [Str("2019-08-17T23:56:38.977+01:00")],
        "category" := [Str("foo"), Str("bar")],
        "slug" := [Str("baz")]]))
  }

  lemma ExampleReplaceContent()
    ensures var r := UpdatePost(Some(Note()), ReplaceOnly([Entry("content", [Str("hello moon")])]));
      r.Ok? && r.value.mf2.properties["content"] == [Str("hello moon")]
  {
    ReplaceSetsValues(Note(), [Entry("content", [Str("hello moon")])]);
  }

  lemma ExampleAddSyndication(u: string)
    ensures var r := UpdatePost(Some(Note()), AddOnly([Entry("syndication", [Str(u)])]));
      r.Ok? && r.value.mf2.properties["syndication"] == [Str(u)]
  {
    AddAppendsValues(Note(), [Entry("syndication", [Str(u)])]);
  }

  lemma ExampleAddCategory()
    ensures var r := UpdatePost(Some(Note()), AddOnly([Entry("category", [Str("baz")])]));
      r.Ok? && r.value.mf2.properties["category"] == [Str("foo"), Str("bar"), Str("baz")]
  {
    AddAppendsValues(Note(), [Entry("category", [Str("baz")])]);
  }

  lemma ExampleDeleteProperty()
    ensures var r := UpdatePost(Some(Note()), DeleteOnly(NameList(["category"])));
      r.Ok? && "category" !in r.value.mf2.properties
  {
    DeleteNamesRemoves(Note(), ["category"]);
  }

  lemma ExampleDeleteEntry()
    ensures var r := UpdatePost(Some(Note()), DeleteOnly(Obj([Member("category", Arr([Str("foo")]))])));
      r.Ok? && r.value.mf2.properties["category"] == [Str("bar")]
  {
    DeleteValuesRemovesListed(Note(), [Member("category", Arr([Str("foo")]))]);
  }

  lemma ExampleDeleteLastEntries()
    ensures var r := UpdatePost(Some(Note()), DeleteOnly(Obj([Member("category", Arr([Str("foo"), Str("bar")]))])));
      r.Ok? && "category" !in r.value.mf2.properties
  {
    DeleteValuesRemovesListed(Note(), [Member("category", Arr([Str("foo"), Str("bar")]))]);
  }

  lemma ExampleDeleteAbsentProperty()
    ensures var r := UpdatePost(Some(Note()), DeleteOnly(Obj([Member("tags", Arr([Str("foo"), Str("bar")]))])));
      r == Ok(Note()) && r.value.mf2.properties["category"] == [Str("foo"), Str("bar")]
      && "tags" !in r.value.mf2.properties
  {
    DeleteAbsentIsNoOp(Note(), [Member("tags", Arr([Str("foo"), Str("bar")]))]);
  }

  lemma ExampleDeleteNotArray()
    ensures var r := UpdatePost(Some(Note()), DeleteOnly(Obj([Member("category", Str("foo"))])));
      r.Err? && Message(r.error) == Some("category should be an array")
  {
    DeleteNonArrayFails(Note(), [Member("category", Str("foo"))], 0);
    assert "category" + " should be an array" == "category should be an array";
  }
}
