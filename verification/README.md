# SPC intake form: store, address-bar codec and shortcut buttons

`src/pages/spc.tsx` is a single-page intake form. All its fields live in one store
(`useBearStore`), a flat object of string fields. Every update is a shallow merge
(`updateForm`). After each change a subscriber serialises the whole form into the address bar
as `?data=` + `encodeURIComponent(JSON.stringify(form))`. On page load `getUrlState` reads the
form back. Each row of the form (`GenericInput`) has a text input, optional shortcut buttons
that toggle a value in (`useButtonState2`), and a trash button.

This project models those three pieces in Dafny:

- `FormState` covers the form object and the merge. The object is an ordered list of entries
  with distinct keys, because JavaScript objects keep insertion order and `JSON.stringify`
  follows it.
- `Json` covers `JSON.stringify` for a flat object of strings and `JSON.parse`, restricted to
  what the store accepts.
- `Utf8` covers UTF-8 encoding and decoding (RFC 3629), strict and with replacement.
- `UriComponent` covers `encodeURIComponent` and `decodeURIComponent` (section 19.2.6 of
  ECMA-262).
- `SearchParams` covers the `application/x-www-form-urlencoded` parser behind
  `URLSearchParams.get` (WHATWG URL Standard, section 5.1).
- `UrlState` covers the query the subscriber writes and `getUrlState`, both as written and
  corrected.
- `Store` covers the page's store together with its subscriber.
- `Shortcuts` covers one row's buttons, its input and its handlers.
- `Scenarios` holds concrete instances.

`Wrappers`, `Hex` and `Seqs` are small helpers.

## Model

| member | source | states |
|---|---|---|
| FormState.KeyInjective | src/pages/spc.tsx:7-33 | distinct fields of the schema are stored under distinct property names |
| FormState.Lookup | src/pages/spc.tsx:196 | a field has a value exactly when its key is one of the object's properties |
| FormState.Put | src/pages/spc.tsx:56 | assigning a property keeps keys distinct; an existing key keeps its position and a new key is appended last |
| FormState.PutLookup | src/pages/spc.tsx:56 | after assigning `k`, `k` holds the new value and every other key holds what it held |
| FormState.PutNew | src/pages/spc.tsx:56 | assigning a key the object lacks appends exactly that one property |
| FormState.Merge | src/pages/spc.tsx:56 | `{ ...s, ...p }` has distinct keys, and the properties of `s` keep their order at the front |
| FormState.MergeLookup | src/pages/spc.tsx:56 | after the merge, keys in `p` hold `p`'s value (empty strings included) and all other keys hold `s`'s value or stay absent |
| FormState.MergeIdempotent | src/pages/spc.tsx:56 | applying the same update twice leaves the same object as applying it once |
| FormState.SameLookupsSameKeys | src/pages/spc.tsx:56 | key order plus lookups determine an object completely |
| FormState.Single | src/pages/spc.tsx:187 | `{ [formKey]: value }` holds `value` under the field's key and has no other property |
| FormState.SetField | src/pages/spc.tsx:187 | `updateForm({ [formKey]: value })` sets that field and changes no other property |
| Json.Stringify | src/pages/spc.tsx:60 | the serialisation is a braced object text, and it is `{}` exactly for the empty form; what it means is carried by `Json.ParseStringify` and `Json.ParseShortest` |
| Json.ParseStringify | src/pages/spc.tsx:48 | `JSON.parse(JSON.stringify(form))` gives back the same object, with the same keys in the same order and the same values |
| Json.Parse | src/pages/spc.tsx:48 | whatever object `JSON.parse` yields has distinct keys, even when the text repeats a key |
| Json.StringifyPercent | src/pages/spc.tsx:60 | the serialised form contains `%` exactly when some key or value does |
| Json.ParseShortest | src/pages/spc.tsx:48 | no text shorter than a form's `JSON.stringify` serialisation parses to that form: whitespace, longer escapes and repeated keys only add characters |
| Json.StringifySingle | src/pages/spc.tsx:60 | a one-field form with plain text serialises to `{"k":"v"}` |
| Utf8.DecodeEncode | src/pages/spc.tsx:62 | decoding the UTF-8 encoding of a code point gives that code point |
| Utf8.EncodeDecode | src/pages/spc.tsx:47 | every well-formed UTF-8 sequence is the encoding of the code point it decodes to |
| Utf8.DecodeLossyEncodeString | src/pages/spc.tsx:43 | the replacing decoder reads back any encoded string unchanged |
| UriComponent.Encode | src/pages/spc.tsx:62 | `encodeURIComponent` output is made only of unreserved characters and `%`, and is never shorter than its input |
| UriComponent.EncodeUnchanged | src/pages/spc.tsx:62 | encoding leaves a string unchanged exactly when it is made only of unreserved characters |
| UriComponent.EncodeAppend | src/pages/spc.tsx:62 | encoding a concatenation gives the concatenation of the encodings |
| UriComponent.DecodeEncode | src/pages/spc.tsx:47 | `decodeURIComponent(encodeURIComponent(s))` is `s` for every string of code points |
| UriComponent.Decode | src/pages/spc.tsx:47 | a successful decode is never longer than its input, and is strictly shorter when the input contains `%` |
| UriComponent.DecodeWithoutPercent | src/pages/spc.tsx:47 | text with no `%` decodes to itself |
| UriComponent.DecodeWithPercent | src/pages/spc.tsx:47 | text containing `%` never decodes to itself: it either throws or changes |
| UriComponent.DecodeBadEscape | src/pages/spc.tsx:47-50 | a `%` not followed by two hex digits, anywhere in the text, makes `decodeURIComponent` throw |
| UriComponent.DecodeAppend | src/pages/spc.tsx:47 | text that decodes on its own, followed by more text, decodes the two parts in turn |
| UriComponent.DecodeInvalidUtf8 | src/pages/spc.tsx:47-50 | after any text that decodes, an escaped stray continuation byte, an invalid lead byte, a lead byte missing its continuation escapes, or escaped bytes that are not well-formed UTF-8 make `decodeURIComponent` throw |
| SearchParams.Parse | src/pages/spc.tsx:42 | `new URLSearchParams(search)` yields no pair for an empty query and at most one pair for a query without `&` |
| SearchParams.Get | src/pages/spc.tsx:43 | `get` finds a value exactly when some pair has the name, and the value it finds is that of the first such pair |
| SearchParams.DecodeComponentEncoded | src/pages/spc.tsx:43 | the form-urlencoded decoding of `encodeURIComponent(s)` is `s` |
| SearchParams.GetSingleParam | src/pages/spc.tsx:42-43 | in `?name=` + `encodeURIComponent(v)`, `get(name)` returns `v`, already percent-decoded |
| UrlState.Query | src/pages/spc.tsx:60-63 | the subscriber's query is `?data=` followed only by unreserved characters and `%`, so nothing in the value can end the parameter |
| UrlState.DataParam | src/pages/spc.tsx:42-43 | `data` is found exactly when some pair of the query has that name, and it is the value of the first such pair |
| UrlState.LoadAsWritten | src/pages/spc.tsx:40-52 | `getUrlState` as written yields an object without repeated keys for every address bar; which forms it gives back is stated by `UrlState.LoadAsWrittenRoundTrip` |
| UrlState.Load | src/pages/spc.tsx:40-52 | the corrected reader yields an object without repeated keys for every address bar; that it gives back every written form is stated by `UrlState.LoadQuery` |
| UrlState.DataParamOfQuery | src/pages/spc.tsx:42-43 | the query the subscriber writes carries the serialised form as its `data` parameter |
| UrlState.LoadWithoutData | src/pages/spc.tsx:44-46 | a missing or empty `data` parameter loads the empty form |
| UrlState.LoadFallsBack | src/pages/spc.tsx:47-51 | a parameter that fails to decode or to parse loads the empty form, never an error |
| UrlState.LoadAsWrittenQuery | src/pages/spc.tsx:40-52 | as written, the page reloads to the same form whenever no key or value contains `%` |
| UrlState.SecondDecodeAltersPercent | src/pages/spc.tsx:43-48 | when some key or value contains `%`, the second decode never passes `JSON.parse` the text that was serialised |
| UrlState.LoadAsWrittenLosesPercent | src/pages/spc.tsx:43-48 | as written, every form with `%` in some key or value reloads as a different form |
| UrlState.LoadAsWrittenRoundTrip | src/pages/spc.tsx:40-52 | as written, a form survives the reload exactly when none of its keys or values contains `%` |
| UrlState.LoadQuery | src/pages/spc.tsx:40-52 | the corrected reader gives back every form the subscriber writes |
| Store.Boot | src/pages/spc.tsx:55 | the page load with the corrected reader `UrlState.Load`: whatever the address bar holds, malformed text included, the store starts from an object without repeated keys and the address bar is left as it is |
| Store.BootAsWritten | src/pages/spc.tsx:55 | the page load as written, `form: getUrlState()` with its double decode: whatever the address bar holds, the store starts from an object without repeated keys and the address bar is left as it is |
| Store.BootsAgree | src/pages/spc.tsx:40-55 | both page loads start from the same store on every address bar the subscriber writes for a form without `%` |
| Store.Update | src/pages/spc.tsx:56-64 | an update merges the partial form into the store, and the corrected reader `UrlState.Load` reads the address bar written afterwards back as the new form |
| Store.Set | src/pages/spc.tsx:187 | a one-field update sets that field and leaves all others alone, and the corrected reader `UrlState.Load` reads the address bar back as the new form |
| Store.ReloadAfterUpdate | src/pages/spc.tsx:55-64 | reloading after any update restores the store with the corrected page load; with the page load as written, when no `%` is stored |
| Shortcuts.Transform | src/pages/spc.tsx:124-142 | one button per option, numbered in order, with only the final one marked last and only the one at the selection index marked selected |
| Shortcuts.TransformSelectedCount | src/pages/spc.tsx:140 | exactly one button is shown as selected when the index names one, and otherwise none is |
| Shortcuts.Mount | src/pages/spc.tsx:194-198 | a mounted row has no button selected (`useState(-1)`, line 122) and its input shows the stored value, or `""` when the field is absent |
| Shortcuts.Step | src/pages/spc.tsx:131-236 | the click toggle (lines 131-139, written through lines 186-191), the typed edit (lines 218-220) and the trash button (lines 231-236): every handler keeps the selection valid and leaves the input showing what the store holds for the field |
| Shortcuts.StepEffect | src/pages/spc.tsx:131-139 | a click on an unselected button selects it and writes its title; a click on the selected one deselects it and writes `""`; typing writes the text and keeps the selection; trash deselects and writes `""` |
| Shortcuts.StepKeepsOtherFields | src/pages/spc.tsx:186-191 | a row's handler changes no property other than its own field |
| Shortcuts.StepKeepsOtherRows | src/pages/spc.tsx:186-187 | a handler on one row leaves every other field of the schema as it was |
| Shortcuts.OtherRowStaysSynced | src/pages/spc.tsx:186-198 | a handler on another row leaves this row's input showing what the store holds for its field |
| Shortcuts.OtherRowRunStaysSynced | src/pages/spc.tsx:186-198 | any sequence of events on another row leaves this row's input in sync, so the one synchronisation at mount suffices |
| Shortcuts.StepOnPage | src/pages/spc.tsx:186-191 | every handler goes through `updateForm`, and the corrected page load `Store.Boot` reloads the address bar written afterwards to the same form |
| Shortcuts.RunInvariant | src/pages/spc.tsx:119-149 | over any sequence of clicks, edits and trash actions, the selection stays valid, at most one button is shown selected, the input matches the store, and other fields do not change |
| Shortcuts.MountedRow | src/pages/spc.tsx:194-198 | a freshly mounted row, whatever the user then does, keeps its input showing the stored value and at most one button selected |
| Shortcuts.ClickTwice | src/pages/spc.tsx:131-135 | clicking an unselected button twice ends with nothing selected and the field holding `""` |
| Shortcuts.ClickThenType | src/pages/spc.tsx:137-138 | typing after a click keeps the button selected while the field holds the typed text |
| Scenarios.AgeThirty | src/pages/spc.tsx:60-63 | `{ age: "30" }` is written as `?data=%7B%22age%22%3A%2230%22%7D` and both readers load it back |
| Scenarios.PercentValueLost | src/pages/spc.tsx:47 | `{ age: "100%" }` is lost on reload as written, and kept by the corrected reader |
| Scenarios.BadEscapeAfterEscape | src/pages/spc.tsx:47 | `%41%"}` throws: a bad `%` after a valid escape still fails |
| Scenarios.TruncatedSequence | src/pages/spc.tsx:47 | `%C3`, a lead byte without its continuation, throws |
| Scenarios.EscapedSurrogate | src/pages/spc.tsx:47 | `%ED%A0%80`, the UTF-8 form of a surrogate, throws |

## Left out

- React rendering, class names, the `datalist` options and the static option tables are not
  modelled. They do not change the state.
- `console.log` in the subscriber is not modelled because it has no effect on state.
- The subscriber's URL prefix (`protocol//host/pathname`) is not modelled. Only the query
  string is modelled, because that is all `getUrlState` reads.
- The subscriber calls `history.pushState` (line 64), so every change adds a history entry.
  The model keeps only the latest query string and does not model the history stack or the
  back button.
- The model takes `window.location.search` to be exactly the query the subscriber wrote. A
  browser's URL parser percent-encodes `'` in the query of an `http(s)` URL as `%27`, and `get`
  decodes it back to `'`, so the value `get` returns is the same.
- `useButtonState` (lines 81-117) is not modelled. Nothing calls it.
- `zustand`'s internals are not modelled: the subscriber firing after every `set` is taken as
  given.
- The textarea's height adjustment (lines 383-384) is not modelled because it is cosmetic.
- The notes textarea (lines 375-387) has no separate member. It behaves like a row without
  shortcut buttons: `Shortcuts.Mount`, then `Input` events.
- Json.Parse: only the JSON text the store can hold is accepted: an object whose members are
  all strings. Any other JSON value (a number, an array, a nested object, `null`) counts as a
  parse failure and loads the empty form. The source would instead cast such a value to
  `FormState` unchecked.
- FormState.Put: keys are kept in insertion order even when they are integer-like, such as
  `"1"`. A JavaScript object puts such keys first, in ascending numeric order, and so object
  spread (`Merge`), `JSON.parse` and `JSON.stringify` all do too. The schema has no such keys,
  but a URL can bring one in, because foreign keys are kept. Only the order of the serialised
  text would differ: lookups, and so every field the page shows, are unaffected.
- Json.Parse: a `\u` escape of a lone surrogate, such as `"\ud800"`, is rejected. RFC 8259's
  grammar and `JSON.parse` accept it, so `?data={"age":"\ud800"}` loads a form in the browser
  but the empty form here. A string in this model is a sequence of Unicode scalar values and
  cannot hold a lone surrogate. The subscriber writes such an escape only for a form that
  already holds a lone surrogate, and no form in this model can hold one.
- Utf8.Encode: lone surrogates are not modelled. Dafny's `char` is a Unicode scalar value, so
  the `URIError` that `encodeURIComponent` throws on a lone surrogate cannot happen here.
- Shortcuts.StepEffect: a shortcut click writes the option's `title` (line 138). The option's
  short `value` is only the button's label.
- `src/pages/table.tsx` and the prettier configuration are not part of this model.

## Findings

| source | as written | input that shows it | evidently intended | confidence | as-written member | corrected member |
|---|---|---|---|---|---|---|
| src/pages/spc.tsx:43-47 | `URLSearchParams.get` already percent-decodes `data`, and `decodeURIComponent` then decodes it a second time. Any `%` the user typed is read as the start of an escape, so reloading throws and the page starts empty, or reloading silently changes the text. | the form `{ age: "100%" }`: the subscriber writes `?data=%7B%22age%22%3A%22100%25%22%7D`, `get` returns `{"age":"100%"}`, and decoding that a second time throws `URIError`, so the page reloads with `{}` | parse the value `get` returns directly, so that every form survives a reload | not executed | UrlState.LoadAsWritten (counterexample: Scenarios.PercentValueLost; for every such form: UrlState.LoadAsWrittenLosesPercent) | UrlState.Load (proved: UrlState.LoadQuery, Store.ReloadAfterUpdate) |
