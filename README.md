# indiekit Micropub core in Dafny

This project models three parts of the indiekit Micropub server and proves
properties about the model.

- **The update engine.** It takes a stored post (its type, path, URL and
  microformats2 document) and a partial-update instruction with optional
  `replace`, `add` and `delete` parts (section 3.4 of the W3C Micropub
  Recommendation). The result is the updated post or a failure.
- **The query dispatcher.** It answers `q=config`, `q=source` and
  `q=syndicate-to`, and answers anything else with `invalid_request`.
- **The support utilities.** These are `addToArray`, `cleanArray`,
  `cleanObject`, `decodeFormEncodedString`, `getPostTypes`,
  `getPostTypeConfig` and the array branch of `getCategories`.

All three are pure computations on JSON values, so the model uses datatypes,
functions and lemmas:

| file | module | contents |
|---|---|---|
| `wrappers.dfy` | `Wrappers` | `Option` and `Result` |
| `json.dfy` | `Json` | JSON values. Objects are ordered member lists kept in the order given. JavaScript lists integer-like keys first, in ascending order, and the other keys in insertion order; no key in the modelled tests is integer-like. Also property lookup (`Get`, which gives `undefined` for a missing key) and JavaScript truthiness. |
| `update_data.dfy` | `UpdateData` | the update engine and its properties |
| `update_examples.dfy` | `UpdateExamples` | the engine on the post record its tests start from |
| `query.dfy` | `Query` | the query dispatcher |
| `support.dfy` | `Support` | `addToArray`, the cleaning helpers, the post-type merge and lookup, `getCategories` |
| `form_encoding.dfy` | `FormEncoding` | `decodeFormEncodedString`: `+` becomes a space, then the `decodeURIComponent` function of ECMA-262. It includes UTF-8 validation, with a form encoder as its partner. |
| `support_examples.dfy` | `SupportExamples` | the support utilities on the values their tests use |

`lib/post/update-data.js` is not modelled from its code: the model follows
its tests (`packages/micropub/test/lib/post/update-data.test.js`). The tests
fix that a missing post record fails (lines 127-136) and that a non-array
entry in a `delete` object fails with "`<property>` should be an array"
(lines 116-125). The following are modelling choices that the tests do not
pin down:

- The failure for a missing post record is the error kind `InvalidTarget`.
- `delete` is applied first, then `replace`, then `add`.
- `delete` is either an array of property names or an object from property
  names to arrays of values. Anything else is rejected.
- The non-array check covers every member of a `delete` object, whether or
  not the post has that property, before any value is removed, and the error
  names the first such member.
- The whole update is all-or-nothing.

Likewise the support utilities (the `packages/support` package) are not modelled
from their code: the model follows their tests
(`packages/support/test/index.test.js`), and the choices the tests leave open
are listed under "Left out".

## Model

| member | source | states |
|---|---|---|
| UpdateData.UpdatePost | packages/micropub/test/lib/post/update-data.test.js:127-136 | A missing post fails with `InvalidTarget`. Without `delete` an update never fails. A successful update keeps the post's type, path, URL and mf2 `type` and changes only the properties. |
| UpdateData.ShouldBeArray | packages/micropub/test/lib/post/update-data.test.js:124 | The message is the property name followed by " should be an array". |
| UpdateData.Message | packages/micropub/test/lib/post/update-data.test.js:116-125 | An error has a message exactly when it is the non-array deletion error. |
| UpdateData.ReplaceEntries | packages/micropub/test/lib/post/update-data.test.js:40-49 | `replace` gives the old property names plus the replaced ones. Every other property keeps its values. |
| UpdateData.ReplaceEntriesSets | packages/micropub/test/lib/post/update-data.test.js:40-49 | After `replace`, a named property holds exactly the given values, whatever it held before. |
| UpdateData.ReplaceEntriesNonEmpty | packages/micropub/test/lib/post/update-data.test.js:40-49 | `replace` with non-empty value lists leaves no property mapped to no values. |
| UpdateData.AddEntries | packages/micropub/test/lib/post/update-data.test.js:51-71 | `add` gives the old property names plus the added ones. Every other property keeps its values. |
| UpdateData.AddEntriesAppends | packages/micropub/test/lib/post/update-data.test.js:62-71 | After `add`, a named property holds its old values followed by the added ones. A new property holds just the added ones. |
| UpdateData.AddEntriesNonEmpty | packages/micropub/test/lib/post/update-data.test.js:51-71 | `add` with non-empty value lists leaves no property mapped to no values. |
| UpdateData.DeleteProperties | packages/micropub/test/lib/post/update-data.test.js:73-80 | Delete-by-name removes exactly the named properties. The others keep their values. |
| UpdateData.Without | packages/micropub/test/lib/post/update-data.test.js:82-91 | A value survives deletion exactly when it was present and is not listed. Deletion never lengthens the list. |
| UpdateData.WithoutConcat | packages/micropub/test/lib/post/update-data.test.js:82-91 | Deleting values keeps the remaining values in their order: it distributes over concatenation. |
| UpdateData.WithoutIdempotent | packages/micropub/test/lib/post/update-data.test.js:82-102 | Deleting the same values twice is the same as deleting them once. |
| UpdateData.FirstNonArray | packages/micropub/test/lib/post/update-data.test.js:116-125 | Finds the first member of a `delete` object that is not an array. Finds none exactly when every member is an array. |
| UpdateData.DeleteValueLists | packages/micropub/test/lib/post/update-data.test.js:82-114 | Delete-by-value never adds a property and never leaves one empty. Unlisted properties are unchanged. A listed property loses exactly the listed values, and is removed when none are left. |
| UpdateData.DeleteEntries | packages/micropub/test/lib/post/update-data.test.js:116-125 | A `delete` object fails exactly when some member is not an array. The error names the first such member. |
| UpdateData.Names | packages/micropub/test/lib/post/update-data.test.js:77 | The property names of a `delete` array, in order. |
| UpdateData.NameList | packages/micropub/test/lib/post/update-data.test.js:77 | A list of names written as a `delete` array reads back as the same names. |
| UpdateData.ApplyDelete | packages/micropub/test/lib/post/update-data.test.js:73-125 | A successful delete pass only removes properties and never leaves one empty. Its failure is never `InvalidTarget`. |
| UpdateData.ReplaceSetsValues | packages/micropub/test/lib/post/update-data.test.js:40-49 | A `replace` update succeeds and sets every named property to exactly its values. The properties are the old ones plus the named ones. Every other property is unchanged. |
| UpdateData.ReplaceIdempotent | packages/micropub/test/lib/post/update-data.test.js:40-49 | Applying the same `replace` twice gives the same post as applying it once. |
| UpdateData.AddAppendsValues | packages/micropub/test/lib/post/update-data.test.js:51-71 | An `add` update succeeds. It appends to existing properties and creates missing ones with the given values. The other properties are unchanged. |
| UpdateData.DeleteNamesRemoves | packages/micropub/test/lib/post/update-data.test.js:73-80 | A `delete` array update succeeds. It removes exactly the named properties and leaves the others' values unchanged. |
| UpdateData.DeleteValuesRemovesListed | packages/micropub/test/lib/post/update-data.test.js:82-102 | A `delete` object of arrays succeeds. A listed property keeps what is left after removing the listed values, in order, and is removed if nothing is left. |
| UpdateData.DeleteAbsentIsNoOp | packages/micropub/test/lib/post/update-data.test.js:104-114 | Deleting values from properties the post lacks returns the post unchanged. |
| UpdateData.DeleteNonArrayFails | packages/micropub/test/lib/post/update-data.test.js:116-125 | A `delete` object whose first non-array member is `k` fails with the message "k should be an array". |
| UpdateData.DeleteMalformedFails | packages/micropub/test/lib/post/update-data.test.js:73-91 | A `delete` that is neither of the two shapes the tests use fails as a whole with `InvalidInstruction`. |
| UpdateData.MissingPostFails | packages/micropub/test/lib/post/update-data.test.js:127-136 | With no post record, every instruction fails with `InvalidTarget`. |
| UpdateData.UpdateKeepsPropertiesNonEmpty | packages/micropub/test/lib/post/update-data.test.js:93-102 | When the post had no empty property and `replace`/`add` give non-empty lists, no update leaves a property mapped to no values. |
| UpdateExamples.ExampleReplaceContent | packages/micropub/test/lib/post/update-data.test.js:40-49 | Replacing `content` with `hello moon` on the test note gives content `hello moon`. |
| UpdateExamples.ExampleAddSyndication | packages/micropub/test/lib/post/update-data.test.js:51-60 | Adding a syndication URL to the test note gives just that URL. |
| UpdateExamples.ExampleAddCategory | packages/micropub/test/lib/post/update-data.test.js:62-71 | Adding category `baz` gives `foo`, `bar`, `baz`. |
| UpdateExamples.ExampleDeleteProperty | packages/micropub/test/lib/post/update-data.test.js:73-80 | Deleting `category` by name removes it. |
| UpdateExamples.ExampleDeleteEntry | packages/micropub/test/lib/post/update-data.test.js:82-91 | Deleting the value `foo` from `category` leaves `bar`. |
| UpdateExamples.ExampleDeleteLastEntries | packages/micropub/test/lib/post/update-data.test.js:93-102 | Deleting both values of `category` removes the property. |
| UpdateExamples.ExampleDeleteAbsentProperty | packages/micropub/test/lib/post/update-data.test.js:104-114 | Deleting values of the absent `tags` leaves the post as it was: `category` keeps `foo`, `bar`, and there is no `tags`. |
| UpdateExamples.ExampleDeleteNotArray | packages/micropub/test/lib/post/update-data.test.js:116-125 | Deleting `category: 'foo'` fails with "category should be an array". |
| Json.Get | app/lib/micropub/query.js:13-14 | Reading a key the object lacks gives `undefined`. |
| Json.Truthy | app/lib/micropub/query.js:13-14 | The falsy values, which `\|\|` replaces by its right operand, are exactly `undefined`, `null`, `false`, `0` and `""`. |
| Query.MediaEndpoint | app/lib/micropub/query.js:13 | The configured `media-endpoint` when it is truthy, otherwise `<appUrl>/media`. Always truthy. |
| Query.SyndicateTo | app/lib/micropub/query.js:14 | The configured `syndicate-to` when it is truthy, otherwise `[]`. Always truthy. |
| Query.AnswerQuery | app/lib/micropub/query.js:12-43 | Every answer has code 200. The result is `invalid_request` exactly when `q` is none of `config`, `source` and `syndicate-to`. A rejection only comes from the `source` resolver and carries its reason. |
| Query.ConfigAnswer | app/lib/micropub/query.js:16-24 | `q=config` answers 200 with exactly `media-endpoint` and `syndicate-to`, in that order, each the configured value or its default. |
| Query.SourceAnswer | app/lib/micropub/query.js:26-31 | `q=source` answers 200 with what the resolver gives for `url` and `properties`, or passes its rejection on. |
| Query.SyndicateToAnswer | app/lib/micropub/query.js:33-40 | `q=syndicate-to` answers 200 with exactly the `syndicate-to` member. |
| Query.UnknownQueryIsInvalidRequest | app/lib/micropub/query.js:42 | The answer is `invalid_request` exactly when `q` is not one of the three known queries. |
| Query.ConfigIgnoresSourceParameters | app/lib/micropub/query.js:16-40 | The `config` and `syndicate-to` answers do not depend on `url`, `properties` or the resolver. |
| Support.AddToArray | packages/support/test/index.test.js:16-19 | The value is appended after the existing items, or becomes the only item when there is no array. |
| Support.CleanArray | packages/support/test/index.test.js:21-28 | An item survives exactly when it is not null, undefined, false or the empty string. The result is never longer. |
| Support.BlankIsFalsyButZero | packages/support/test/index.test.js:21-30 | The values cleaning removes are the falsy values other than the number 0. |
| Support.CleanArrayConcat | packages/support/test/index.test.js:21-28 | Cleaning keeps the surviving items in order: it distributes over concatenation. |
| Support.CleanObject | packages/support/test/index.test.js:30-73 | Cleaning keeps the shape: an array stays an array, an object an object, and any other value is returned as it is. What it keeps and removes is stated by CleanItemsMapsCleanArray (arrays), CleanMembersGet (objects), CleanObjectIsClean and CleanObjectKeepsClean. |
| Support.CleanItemsMapsCleanArray | packages/support/test/index.test.js:30-73 | Cleaning an array keeps exactly its non-blank items, in order, each of them cleaned in turn. |
| Support.CleanObjectIsClean | packages/support/test/index.test.js:30-73 | After `cleanObject` no blank value is left, at any depth of objects and arrays. |
| Support.CleanItemsAreClean | packages/support/test/index.test.js:33 | The cleaned items of an array are non-blank and clean. |
| Support.CleanMembersAreClean | packages/support/test/index.test.js:40-55 | The cleaned members of an object are non-blank and clean. |
| Support.CleanObjectKeepsClean | packages/support/test/index.test.js:30-73 | `cleanObject` leaves an already clean value as it is. |
| Support.CleanItemsKeepClean | packages/support/test/index.test.js:33 | Cleaning already clean array items changes nothing. |
| Support.CleanMembersKeepClean | packages/support/test/index.test.js:40-55 | Cleaning already clean object members changes nothing. |
| Support.CleanObjectIdempotent | packages/support/test/index.test.js:30-73 | Cleaning twice is the same as cleaning once. |
| Support.CleanMembersConcat | packages/support/test/index.test.js:30-73 | Cleaning an object's members keeps the surviving members in order: it distributes over concatenation. |
| Support.CleanMembersKeys | packages/support/test/index.test.js:30-73 | A key survives cleaning exactly when some member with that key has a non-blank value. Distinct keys stay distinct. |
| Support.CleanMembersGet | packages/support/test/index.test.js:30-73 | With distinct keys, reading a key of the cleaned object gives `undefined` if the original value was blank, otherwise the cleaned original value. |
| Support.FindByType | packages/support/test/index.test.js:226-237 | The index of the first post type of the given type. There is none exactly when no entry has that type. |
| Support.OverrideFields | packages/support/test/index.test.js:183-224 | Overriding a default post type by a user entry keeps the default's fields in the default's order. |
| Support.FieldsNotIn | packages/support/test/index.test.js:183-224 | The user's extra fields are user members whose keys the default lacks. |
| Support.GetAppend | packages/support/test/index.test.js:183-224 | Reading a key of a merged object finds the first part's value when the first part has the key, otherwise the second part's. |
| Support.OverrideFieldsGet | packages/support/test/index.test.js:183-224 | In the overridden default, a field the user sets has the user's value and any other field keeps the default's value. |
| Support.FieldsNotInGet | packages/support/test/index.test.js:183-224 | The extra fields give the user's value for every key the default lacks. |
| Support.MergeFieldsGet | packages/support/test/index.test.js:183-224 | In a merged post type, every field has the user's value where the user sets it, otherwise the default's value. |
| Support.MergeDefaults | packages/support/test/index.test.js:183-224 | One entry per default, in order. Each is merged with the user's entry of its type when there is one, otherwise left unchanged. |
| Support.UserOnly | packages/support/test/index.test.js:204-207 | The user's entries whose type no default has: all of them and no others, and never more entries than the user gave. |
| Support.UserOnlyConcat | packages/support/test/index.test.js:204-207 | The user-only entries keep the user's order. |
| Support.MergePostTypes | packages/support/test/index.test.js:183-224 | The merged list is at least as long as the defaults, and every entry after the defaults is a user entry whose type no default has. |
| Support.MergePostTypesSpec | packages/support/test/index.test.js:183-224 | The defaults come first: each keeps its type and position and reads every field from the user's entry of that type where set, else from the default. The user-only types follow. |
| Support.MergePostTypesCoversTypes | packages/support/test/index.test.js:183-224 | Every type that either list has appears in the merged list. |
| Support.ObjectList | packages/support/test/index.test.js:185-207 | A JSON array is read as a list of objects exactly when all its items are objects. |
| Support.GetPostTypes | packages/support/test/index.test.js:183-224 | The merged `post-types` of the defaults and the user configuration, when both are lists of objects. |
| Support.HasType | packages/support/test/index.test.js:226-237 | An item has a post type when it is an object whose `type` member is that type. |
| Support.FirstOfType | packages/support/test/index.test.js:226-237 | The index of the first item that is an object of the given type; none exactly when no item is one. |
| Support.GetPostTypeConfig | packages/support/test/index.test.js:226-237 | The first object in `post-types` whose `type` is the requested one, with every earlier item not of that type; non-object items are skipped. When `post-types` is an array, none means no object in it has that type. |
| Support.GetCategories | packages/support/test/index.test.js:115-118 | An array of categories is returned as it is. |
| SupportExamples.ExampleAddToArray | packages/support/test/index.test.js:16-19 | `addToArray(null, 'baz')` is `['baz']`, and `addToArray(['foo','bar'], 'baz')` is `['foo','bar','baz']`. |
| SupportExamples.ExampleCleanArray | packages/support/test/index.test.js:21-28 | `[1, null, 2, undefined, 3, false, '']` cleans to `[1, 2, 3]`. |
| SupportExamples.ExampleCleanObject | packages/support/test/index.test.js:30-73 | The three-level test object cleans to the expected one: its array and all three levels lose their blank members. |
| SupportExamples.ExampleGetCategories | packages/support/test/index.test.js:115-118 | `['foo', 'bar']` gives `['foo', 'bar']`. |
| SupportExamples.ExampleGetPostTypeConfig | packages/support/test/index.test.js:226-237 | Looking up `note` gives the note entry, whose `name` is `Note`. |
| SupportExamples.ExampleGetPostTypes | packages/support/test/index.test.js:183-224 | The test's defaults and configuration merge to the memo note, the picture with the default camera icon, and the overheard type. |
| FormEncoding.DecodeFormEncodedString | packages/support/test/index.test.js:75-79 | A non-string gives `false`. A string decodes to a string or fails with a URIError. |
| FormEncoding.PercentDecode | packages/support/test/index.test.js:78 | `decodeURIComponent`. Its contract is carried by DecodeFormEncode and PercentDecodeFormEncode (it inverts the encoding), Utf8DecodeCanonical, DecodeEscapeCanonical and DecodeEscapeRejectsBadLead (an accepted escape run spells exactly the UTF-8 encoding of the character it gives, in either hexadecimal case), and MalformedEscape (a bad escape is a URIError). |
| FormEncoding.PlusToSpace | packages/support/test/index.test.js:77 | Every `+` becomes a space and every other character is kept. |
| FormEncoding.HexValue | packages/support/test/index.test.js:78 | Exactly the characters `0`-`9`, `a`-`f` and `A`-`F` have a value. It is below 16, and the digit spells it: `0`-`9` for 0 to 9, a letter of either case for 10 to 15. |
| FormEncoding.EscapedByte | packages/support/test/index.test.js:78 | The text starts with an escape exactly when it is `%` followed by two hexadecimal digits. The byte has the first digit as its high nibble and the second as its low nibble. |
| FormEncoding.Continuations | packages/support/test/index.test.js:78 | Reads `count` escaped continuation bytes: byte `i` is the one the escape at position `3 * i` spells, every byte is a continuation byte, and they take three characters each. |
| FormEncoding.DecodeEscape | packages/support/test/index.test.js:78 | A decoded escape run takes at least one escape (three characters) and never more than the input. Which bytes it reads, and that they are the UTF-8 encoding of the result, is stated by DecodeEscapeCanonical. |
| FormEncoding.DecodeFormEncode | packages/support/test/index.test.js:75-79 | Decoding the form encoding of any string gives that string back. |
| FormEncoding.PercentDecodeFormEncode | packages/support/test/index.test.js:78 | `decodeURIComponent` inverts the form encoding, before the `+` step. |
| FormEncoding.DecodeEscapeOfChar | packages/support/test/index.test.js:78 | The escapes of a character's UTF-8 bytes decode to that character and take all of them. |
| FormEncoding.DecodeEncodedChar | packages/support/test/index.test.js:77-78 | Decoding the encoding of one character gives that character, followed by the decoding of the rest. |
| FormEncoding.Utf8EncodeWellFormed | packages/support/test/index.test.js:78 | UTF-8 encoding of a character gives a valid lead byte, the right number of continuation bytes, and a code point that is not overlong. |
| FormEncoding.Utf8DecodeCanonical | packages/support/test/index.test.js:78 | Bytes the decoder accepts are exactly the UTF-8 encoding of the character they decode to. So overlong forms, surrogates and code points above U+10FFFF never decode. DecodeEscapeCanonical lifts this to the input text. |
| FormEncoding.DecodeEscapeCanonical | packages/support/test/index.test.js:78 | An escape run that decodes to a character spells that character's UTF-8 encoding, escape by escape in either hexadecimal case, and takes exactly three characters per byte. |
| FormEncoding.DecodeEscapeRejectsBadLead | packages/support/test/index.test.js:78 | An escape run starting with a continuation byte, 0xC0, 0xC1 or a byte at or above 0xF8 is a URIError. |
| FormEncoding.EscapedByteOfEscape | packages/support/test/index.test.js:78 | The escape of a byte reads back as that byte. |
| FormEncoding.ContinuationsOfEscapes | packages/support/test/index.test.js:78 | Escaped continuation bytes read back as the same bytes. |
| FormEncoding.EscapeBytesHasNoPlus | packages/support/test/index.test.js:77 | An escape run contains no `+`, so the `+` step leaves it alone. |
| FormEncoding.PlusToSpaceConcat | packages/support/test/index.test.js:77 | The `+` step works character by character: it distributes over concatenation. |
| FormEncoding.PercentDecodeWithoutEscapes | packages/support/test/index.test.js:77 | Text without `%` decodes to itself. |
| FormEncoding.PlusBecomesSpace | packages/support/test/index.test.js:77 | A string without `%` decodes to the string with every `+` replaced by a space. |
| FormEncoding.PercentDecodePrefixWithoutEscapes | packages/support/test/index.test.js:78 | Text without `%` in front of the rest is kept, followed by the decoding of the rest. |
| FormEncoding.AsciiEscapeDecodes | packages/support/test/index.test.js:78 | An escape of an ASCII byte (such as `%3A` or `%2F`) decodes to that character, followed by the decoding of the rest. |
| FormEncoding.ExampleNotAString | packages/support/test/index.test.js:76 | `decodeFormEncodedString({foo: 'bar'})` is `false`. |
| FormEncoding.ExamplePlus | packages/support/test/index.test.js:77 | `foo+bar` decodes to `foo bar`. |
| FormEncoding.ExampleMalformedEscape | packages/support/test/index.test.js:78 | The two strings `100%` and `%zz` are URIErrors. |
| FormEncoding.MalformedEscape | packages/support/test/index.test.js:78 | Any text starting with a `%` that is not followed by two hexadecimal digits is a URIError. |
| FormEncoding.PlusToSpaceWithoutPlus | packages/support/test/index.test.js:77 | Text without `+` is left unchanged by the `+` step. |
| FormEncoding.DecodeWithoutPlus | packages/support/test/index.test.js:77-78 | For text without `+`, the form decoding is exactly the `decodeURIComponent` decoding. |
| FormEncoding.ExampleEscapedUrl | packages/support/test/index.test.js:78 | `http%3A%2F%2Ffoo.bar` decodes to `http://foo.bar`. |

## Left out

- Floating-point numbers: JSON numbers are mathematical integers here. No lemma depends on numbers beyond their truthiness.
- Strings are sequences of Unicode scalar values: JavaScript strings are UTF-16 code units. Lone surrogates cannot be represented. `decodeURIComponent` rejects an encoded surrogate, as the model does, but copies an unescaped lone surrogate of its input unchanged; the model cannot express such an input.
- Asynchrony: `async`, `await` and promises are left out. The query dispatcher and the utilities are total functions.
- `microformats.urlToMf2` is a parameter of `Query.AnswerQuery`. A rejection of its promise becomes a `Rejected` response carrying the reason.
- `response.error('invalid_request')`: its HTTP status and body layout are not part of this model. Only the error name is modelled.
- The null-post failure text (`Cannot destructure property ...`) is a JavaScript runtime message. The model returns `InvalidTarget`.
- UpdateKeepsPropertiesNonEmpty: the update engine is proved not to leave empty properties only when `replace` and `add` give non-empty lists. An empty list there is stored as given; this is a modelling choice, since the tests never use one.
- Updates that combine several operations: the lemmas cover one kind of operation per instruction. The delete, replace, add order of `UpdateData.UpdatePost` is a modelling choice; the tests never combine operations.
- DeleteValuesRemovesListed: removal by value drops every occurrence of a listed value. How the source treats duplicate values is not visible in its tests.
- Without: values are compared as JSON values, so an object value (such as a photo `{value, alt}`) is removed by any equal object, where JavaScript's `===` matches only the same object. The tests remove only strings.
- DecodeFormEncodedString: `+` becomes a space before percent-decoding, so `%2B` decodes to `+` and is not turned into a space. The tests (index.test.js:77-78) do not fix this order.
- Entry: `replace` and `add` values are always lists, so a scalar value there cannot be written. The tests only use arrays (update-data.test.js:45, 56, 67).
- CleanArray: it takes a list of values, so the non-array input that the test title at index.test.js:21 mentions cannot be expressed; the test only passes an array.
- The `action` and `url` members of an update request: in its tests `updateData` ignores them (the request `url`, `https://foo.bar/baz`, is not the post's URL and the update is applied anyway). They are not part of `UpdateData.Instruction`.
- `getCategories` with an object `{url}` fetches remote JSON over the network. That branch returns none here.
- GetPostTypes: a `post-types` value that is not a list of objects gives none. This is a modelling choice; the tests only use lists of objects.
- GetPostTypeConfig: a `post-types` value that is not an array gives none, and items that are not objects are skipped. This is a modelling choice; the tests only use an array of objects.
- MergePostTypes: when a type is repeated, the first user entry of that type wins and every default entry is kept. MergeFields merges fields one level deep only. The tests have no repeated types and no nested fields.
- CleanArray: the number 0 is kept (by CleanObject too), although JavaScript treats it as falsy; BlankIsFalsyButZero states the difference. The tests never contain 0.
- CleanObject: an object or array that cleaning leaves empty is kept as `{}` or `[]`, not removed. The tests never empty one.
- UpdatePost: the `config` argument that the tests pass to `updateData` (update-data.test.js:47) is not modelled; no test shows it affecting the result.
- `fetchJson`, `getConfig`, `formatDate`, `render`, `renderEmoji` and `renderMarkdown` are network, file, date and template operations. They are not part of this model.
- `app/lib/history/update.js`, `packages/endpoint-media/lib/media.js`, `packages/app/routes/docs.js`, undelete and the GitHub publisher's file creation are storage, media and routing code outside the modelled core.
