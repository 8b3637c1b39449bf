# urlito, modelled in Dafny

urlito keeps part of a web page's state in the query string of the page's
address. The caller names the state keys to manage, either as a list of names
or as a map from name to per-key options. The options are the query name
(`uriKey`), a decoder (`fromUri`), an encoder (`toUri`) and an equality
(`comparator`). The library then offers four things:

- `normalizeKeys` turns either input shape into one uniform descriptor per key.
- `getValuesFromUri` reads the state. It starts from the defaults, and a
  decoded query value replaces a default unless the key's equality calls the
  two equal.
- `setValuesToUri` writes the state. A key whose value equals its default has
  its query name deleted. Every other key has its query name set to the
  encoded value. Query pairs with other names are left alone.
- `stateToUri` binds a getter and a setter to one initial state. That state
  serves as the defaults of both.

The query is modelled as an ordered list of name-value pairs. `has`, `get`,
`delete` and `set` follow section 6.2 of the WHATWG URL Standard (the
`URLSearchParams` interface). A `URLSearchParams` object is a class whose
pair list `delete` and `set` update in place. The write loop is a method that
works on such an object.

Modules, one per file:

- `Optional` (`optional.dfy`): `Option` and a map lookup that treats a missing
  key as `undefined`.
- `UrlSearchParams` (`url_search_params.dfy`): the pair-list operations and the
  `SearchParams` class.
- `KeySpecs` (`key_specs.dfy`): the descriptors and `normalizeKeys`.
- `Reader` (`reader.dfy`): `getValuesFromUri`, as a loop method proved
  against the function `Read`.
- `QueryEdit` (`query_edit.dfy`): the write from the query's side. A plan is
  one change per managed query name. `Apply` makes the changes one after the
  other. `Edit` and `Appended` describe the same outcome in a single pass over
  the prior pairs, and `ApplyIsEdit` proves the two agree. The write's
  properties are proved about the single-pass form.
- `Writer` (`writer.dfy`): `setValuesToUri`, as a loop method over a
  `SearchParams` object proved against the function `Write`, with the write's
  properties stated per key.
- `Composer` (`composer.dfy`): `stateToUri`, and what a read returns after a
  write.
- `Scenarios` (`scenarios.dfy`): the repository's test cases, worked out on
  their own inputs.

How JavaScript values are modelled:

- The value type `T` is generic. State objects and defaults are
  `map<string, T>`, and an absent key stands for `undefined`.
- The identity codecs need to know what a string means in `T` and how `T` is
  written as text. A `Coercion<T>` supplies both. `StringCoercion` is the one
  for string state, where the identity codecs are exact.
- `ofString` must be the plain injection of a text into `T`, with no parsing:
  the identity decoder hands the query's string back unchanged, so with
  numeric state the number 1 is written as "1" and read back as the string
  "1". A coercion whose `ofString` parsed numbers would make the round-trip
  lemmas claim a numeric round trip that JavaScript does not perform.
- A decoder returns `Option<T>`. `None` stands for a decoder that throws.
- `Object.is` is modelled as `==` on `Option<T>`.

## Model

| member | source | states |
|---|---|---|
| Optional.Lookup | src/index.js:61-62 | `values[key]` is the stored value when the key is present and `undefined` (None) otherwise |
| UrlSearchParams.HasAt | src/index.js:40 | any pair carrying the name makes `has` true |
| UrlSearchParams.IndexOf | src/index.js:41 | the position of the first pair with the name: every earlier pair has another name, and the position is inside the list exactly when `has` holds |
| UrlSearchParams.Get | src/index.js:41 | `get` returns a value exactly when `has` holds, and the value is that of the first pair with the name |
| UrlSearchParams.Count | src/index.js:40 | the number of pairs with a name is zero exactly when `has` is false |
| UrlSearchParams.DeleteName | src/index.js:65 | after `delete`, no pair carries the name |
| UrlSearchParams.DeleteNameCount | src/index.js:65 | `delete` leaves the number of pairs of every other name unchanged |
| UrlSearchParams.SetNameOnce | src/index.js:68 | after `set`, exactly one pair carries the name and `get` returns the value set |
| UrlSearchParams.SetNameCount | src/index.js:68 | `set` leaves the number of pairs of every other name unchanged |
| UrlSearchParams.SetNameReplaces | src/index.js:68 | when the name is present, `set` keeps everything before its first pair, puts the new pair there, and drops the later pairs with that name |
| UrlSearchParams.SetNameAppends | src/index.js:68 | when the name is absent, `set` appends the pair at the end |
| UrlSearchParams.WithoutSetName | src/index.js:68 | `set` of a name inside a set of names leaves the pairs outside that set as they were |
| UrlSearchParams.SearchParams.constructor | src/index.js:57 | a parameters object starts with the current query's pairs |
| UrlSearchParams.SearchParams.Delete | src/index.js:65 | `params.delete(uriKey)` replaces the object's pairs with the result of `delete` |
| UrlSearchParams.SearchParams.Set | src/index.js:68 | `params.set(uriKey, text)` replaces the object's pairs with the result of `set` |
| KeySpecs.KeyNames | src/index.js:8-18 | the managed names are the list itself or the option map's names, in order |
| KeySpecs.NormalizeKeys | src/index.js:7-30 | one descriptor per input name, in order. A list gives identity codecs, `Object.is`, and `uriKey` equal to the name. A map gives each option when it is present and its default when it is missing; an empty `uriKey` also falls back to the name |
| KeySpecs.ListIsMapWithoutOptions | src/index.js:8-28 | a list of names normalizes exactly as a map that gives each name no options |
| KeySpecs.ListDistinct | src/index.js:8-16 | distinct names in a list give distinct state keys and distinct query names |
| Reader.Find | src/index.js:40-41 | a key's lookup is Missing exactly when `has` is false, Failed exactly when the decoder throws on `get`'s value, and Decoded with the decoder's result otherwise |
| Reader.GetValuesFromUri | src/index.js:32-54 | the loop (copy of the defaults, `has`, `get`, decode, override unless equal, stop on a throw) returns `Read` of the normalized keys |
| Reader.ReadKeepsDefaults | src/index.js:33 | every key of the defaults is in the result of a read |
| Reader.ReadPassesThrough | src/index.js:33 | a state key that no descriptor names reads as its default |
| Reader.ReadManagedKey | src/index.js:39-47 | when no decoder throws and no two keys share a state name, a managed key reads as the decoded query value exactly when the query has its name and the value is not equal to the default; otherwise it reads as the default |
| Reader.ReadBareQuery | src/index.js:39-47 | a query holding none of the managed query names reads as the defaults |
| Reader.ReadStopsAtFailure | src/index.js:35-51 | a decoder that throws at key j ends the read there: the result is the read of the keys before j |
| QueryEdit.DecisionsKeys | src/index.js:60 | the plan's decisions cover exactly the managed query names |
| QueryEdit.EditHas | src/index.js:64-69 | the single-pass edit emits only names the prior query had, and never a name being deleted |
| QueryEdit.EditCountSet | src/index.js:67-69 | in the single-pass edit, a name being set appears once if the prior query had it and not at all otherwise |
| QueryEdit.EditKeepsPlace | src/index.js:67-69 | in the single-pass edit, a name being set takes its new text at the place of its first prior pair, after the edit of what stood before it |
| QueryEdit.EditPassesThrough | src/index.js:60-70 | the single-pass edit keeps every pair whose name it does not change, in order |
| QueryEdit.EditConforming | src/index.js:60-70 | a query in which every changed name is already deleted, or present once with its text, is left as it is by the edit |
| QueryEdit.ApplyIsEdit | src/index.js:60-70 | when query names are distinct, making the changes one after the other with `delete` and `set` gives the single-pass edit followed by the pairs appended for names that were absent, in plan order |
| QueryEdit.ApplyDeletes | src/index.js:64-66 | a deleted name has no pair afterwards |
| QueryEdit.ApplySetsOnce | src/index.js:67-69 | a name being set has exactly one pair afterwards, holding the text set |
| QueryEdit.ApplyReplacesInPlace | src/index.js:67-69 | a name that was present keeps the place of its first pair |
| QueryEdit.ApplyAppendsInOrder | src/index.js:67-69 | a name that was absent comes after every kept pair and after the names appended for earlier changes |
| QueryEdit.ApplyPassesThrough | src/index.js:60-70 | pairs with names outside the plan stay, in order, duplicates included |
| QueryEdit.ApplyOnlyDeletes | src/index.js:64-66 | a plan of deletions only leaves exactly the pairs of other names |
| QueryEdit.ApplyIdempotent | src/index.js:60-70 | making the same changes twice gives the same query as making them once |
| Writer.PlanOf | src/index.js:60-70 | one change per key, in key order, under the key's `uriKey`: a deletion exactly when the key's comparator calls its value equal to its default, otherwise a set to `toUri` of the value |
| Writer.SetValuesToUri | src/index.js:56-73 | the loop over a parameters object (`delete` when equal to the default, else `set` of the encoded value) commits `Write` of the normalized keys |
| Writer.PlanNames | src/index.js:60 | the plan changes exactly the managed query names, and distinct query names give a plan without repeats |
| Writer.PlanIgnoresOtherKeys | src/index.js:61-62 | values that agree on the managed keys give the same plan |
| Writer.WriteElides | src/index.js:64-65 | a key whose value equals its default, by its comparator, leaves no pair under its query name |
| Writer.WriteSetsOnce | src/index.js:67-68 | any other key leaves exactly one pair under its query name, holding `toUri` of its value |
| Writer.WriteKeepsPosition | src/index.js:68 | a key set under a name the query had keeps the place of that name's first pair |
| Writer.WriteAppendsInKeyOrder | src/index.js:60-70 | a key set under a name the query lacked is appended after every kept pair and after the keys before it |
| Writer.WritePassesThrough | src/index.js:57-72 | pairs under unmanaged query names stay, in order |
| Writer.WriteIgnoresUnmanagedValues | src/index.js:61 | only the values of managed keys affect a write |
| Writer.WriteIdempotent | src/index.js:56-73 | writing the same values twice commits the same query as writing them once |
| Writer.WriteDefaultsClears | src/index.js:62-65 | writing the defaults themselves deletes every managed name and keeps everything else |
| Composer.StateToUri | src/index.js:75-82 | the adapter keeps the initial state as defaults; a missing key input falls back to a list naming exactly the initial state's keys, and a given one, empty or not, is kept |
| Composer.Get | src/index.js:79 | the getter is a read with the initial state as defaults |
| Composer.Set | src/index.js:80 | the setter is a write of the given state with the initial state as defaults |
| Composer.FoundAfterWrite | src/index.js:60-70 | after a write, a deleted key is missing from the query and a set key decodes to its value, when its encoding is recoverable |
| Composer.ReadAfterWrite | src/index.js:39-47 | when every written text decodes back to the value it came from (`Recoverable`: a key that is written has a present value, and its decoder maps its `toUri` text back to it), reading what was just written gives each managed key's value back, or its default when the comparator found the value equal to it |
| Composer.StringsLossless | src/index.js:1 | for string state, the identity codecs give back the value written |
| Composer.ListUriKeys | src/index.js:76 | the adapter built without a key input manages exactly the initial state's keys as query names |
| Composer.GetBareIsInitial | test/index.test.js:99-103 | with none of the initial state's keys in the query, the getter returns the initial state |
| Composer.SetInitialResets | test/index.test.js:127-133 | setting the initial state removes every pair named by a key of the initial state and keeps all others |
| Composer.SetThenGet | src/index.js:79-80 | when no information is lost in the codecs, getting after setting a state that gives every name a value returns that state's values |
| Composer.SetIdempotent | src/index.js:80 | setting the same state twice commits the same query as setting it once |
| Scenarios.ReadsPresentValues | test/index.test.js:20-32 | values present in the query replace the defaults |
| Scenarios.ReadsDefaultsWhenAbsent | test/index.test.js:34-46 | managed names absent from the query leave the defaults |
| Scenarios.WritesNonDefaultsPlan | test/index.test.js:50-57 | with no defaults, every key is planned as a set of its value |
| Scenarios.WritesNonDefaults | test/index.test.js:50-58 | with no defaults, every key is appended in key order |
| Scenarios.UnsetsDefaultsPlan | test/index.test.js:60-72 | the key equal to its default is planned as a deletion, the others as sets of their values |
| Scenarios.UnsetsDefaults | test/index.test.js:60-75 | a default value is removed, and other values are set or appended; an unmanaged pair stays first |
| Scenarios.AdapterKeysAreNames | src/index.js:75-76 | the adapter the tests build with `stateToUri(initialState)` manages the initial state's names, each as its own query name, with the identity codecs |
| Scenarios.UndefinedWrittenAsText | src/index.js:64-68 | a state lacking a managed key whose default is present makes `set` write the text "undefined" under that key |
| Scenarios.UndefinedTextReadBack | src/index.js:41-44 | that text reads back as the string "undefined", not as the missing value or the default |
| Scenarios.AdapterReads | test/index.test.js:99-112 | the getter returns the initial state on an empty query and the query's values otherwise |
| Scenarios.AdapterWritesPlan | test/index.test.js:114-122 | both keys differ from the initial state and are planned as sets |
| Scenarios.AdapterWrites | test/index.test.js:114-125 | the setter replaces both values in place |
| Scenarios.AdapterResets | test/index.test.js:127-133 | setting the initial state empties a query holding only the adapter's names |

## Left out

- `setUriSearchString` and every use of `window` are left out. They are I/O on the browser's address and history. The current query is a parameter here, and the committed query is a result.
- Query parsing and serialization are left out: percent-encoding, `+` for spaces, and the leading `?`. The query is modelled as its already-decoded pair list.
- `URLSearchParams.set` turns its value argument into text with JavaScript's `String()`. The model writes that conversion as the coercion's `show`, and takes a `toUri` result to be text already.
- `Object.is` is modelled as `==`. Its treatment of `NaN` and of `+0`/`-0` is not modelled.
- `options.uriKey || key` and the other `||` fallbacks are modelled for missing options and for an empty `uriKey` string. Other falsy option values are not distinguished (`0`, `false`, `null`).
- `stateKeys || Object.keys(initialState)` is modelled as an `Option`. `Object.keys` order cannot be derived from a Dafny map, so the caller passes an ordered list (`objectKeys`), which must name exactly the initial state's keys, once each. The order within that list is not tied to the initial state; the integer-like-key ordering rule of `Object.keys` is not modelled.
- Reader.Find: a decoder's result is either a value or a throw (None). A decoder that returns `undefined` is not modelled. In the source that result is compared with the default: it is skipped when the default is also `undefined`, and otherwise stored as `values[key] = undefined` with the read going on. The state map cannot hold a present key whose value is `undefined`.
- A comparator that throws is not modelled, and neither is a `toUri` that throws. A read would catch such a throw inside its `try` block; a write would propagate it. Only a throwing decoder is modelled.
- A throw during `new URLSearchParams` or during normalization inside the read's `try` block is not modelled. Building `URLSearchParams` from a string does not throw.
- `Composer.StateToUri` returns a record rather than two closures. `set` takes the state directly instead of an object `{ state }`.
- Composer.ReadAfterWrite: a managed key missing from the values while its default is present does not round-trip. `Object.is(undefined, default)` is false, so `params.set` writes the text "undefined", and the read gives back the string "undefined" rather than a missing value. `Recoverable` excludes this case, and `Scenarios.UndefinedWrittenAsText` with `Scenarios.UndefinedTextReadBack` exhibit it.
- Composer.SetThenGet: requires every name of the adapter to have a value in the state for the same reason as `Composer.ReadAfterWrite`: a missing value is written as the text "undefined". Also stated for the adapter built from the initial state's own names (list input). For option maps, `Composer.ReadAfterWrite` states the general result over arbitrary descriptors.
