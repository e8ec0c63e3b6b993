# Address book form app: a verified model

This project models the logic of a small address-book page. A user types a
post code and a house number. The page builds a query string
`postcode=…&streetnumber=…` and asks a lookup endpoint for candidate
addresses. The user then picks one candidate, types a first and last name,
and submits; the page appends the candidate, with the names merged in, to
the address book. A "Clear all fields" button resets the page.

Modules, one per component of the source:

- `UriComponent` (`uri_component.dfy`): `encodeURIComponent`, as section
  19.2.6.4 of ECMA-262 defines it. The characters of the unreserved set of
  section 2.3 of RFC 2396 pass through. Every other character is written as
  `%HH` escapes of its UTF-8 bytes (section 2.1 of RFC 3986, section 3 of
  RFC 3629). A decoder in the manner of `decodeURIComponent` is proved to be
  its inverse.
- `QueryString` (`query_string.dfy`): `buildQueryString` from
  `src/App.tsx`. A parser that splits at `&` and `=` and decodes is proved
  to be its inverse.
- `FormState` (`form_state.dfy`): the `useForm` hook. A class `Form` holds
  the `formFields` state cell, with `HandleChange` and `ResetFields`. Beside
  it are the pure update `Changed`, the event fold `Replay` and the laws
  proved about them.
- `AddressApp` (`app.dfy`): the `App` component as a class `App`. Its
  fields mirror the state cells `isLoading`, `error`, `selectedAddress` and
  `addresses`, the two forms, and the log of `addAddress` calls. Its
  methods are the event handlers. A few client methods at the end drive
  whole interactions.
- `Wrappers` (`wrappers.dfy`): the `Option` and `Result` datatypes.

## Model

| member | source | states |
|---|---|---|
| `UriComponent.Utf8` | src/App.tsx:20 | A character's UTF-8 encoding has 1 to 4 bytes. It has exactly one byte when the character is ASCII. |
| `UriComponent.HexDigit` | src/App.tsx:20 | Each escape digit is an upper-case hexadecimal digit, and it reads back as the value it encodes. |
| `UriComponent.EncodeLength` | src/App.tsx:20 | `encodeURIComponent` never shortens a string. It keeps the length exactly when every character is unreserved. |
| `UriComponent.EncodeIdentity` | src/App.tsx:20 | `encodeURIComponent(s) == s` if and only if every character of `s` is unreserved. So unreserved input passes through unchanged, and nothing else does. |
| `UriComponent.EncodeEscaped` | src/App.tsx:20 | Every encoded string is a run of unreserved characters and `%HH` escapes with upper-case digits. |
| `UriComponent.EscapedChars` | src/App.tsx:20 | An escaped string holds nothing but unreserved characters and `%`. |
| `UriComponent.EncodeHasNoSeparators` | src/App.tsx:20 | `&`, `=` and space never appear raw in an encoded key or value. |
| `UriComponent.ReadEscapedChar` | src/App.tsx:20 | Part of the decoder, the inverse of the encoding on this line (the source itself never decodes): a decoded escape sequence spans 3, 6, 9 or 12 characters, one `%HH` per UTF-8 byte, all within the input. |
| `UriComponent.ReadEscapedUtf8` | src/App.tsx:20 | Inverse of the per-character encoding on this line: the escaped UTF-8 encoding of any character reads back as that character and spans 3 characters per byte. |
| `UriComponent.DecodeEncode` | src/App.tsx:20 | Inverse of `encodeURIComponent` on this line (the source itself never decodes): decoding the encoding of any string gives the string back. |
| `QueryString.Split` | src/App.tsx:22 | Inverse partner of `.join('&')` on this line (the source itself never splits): splitting at a separator gives one more part than there are separators, and no part holds the separator. |
| `QueryString.SplitJoin` | src/App.tsx:22 | Split inverts `.join('&')` on this line: for a non-empty list of parts, none holding the separator, splitting the join gives the parts back. |
| `QueryString.JoinSplit` | src/App.tsx:22 | `.join` on this line inverts split: joining the parts of a split gives the string back. |
| `QueryString.BuildEmpty` | src/App.tsx:16-23 | The query string is empty if and only if there are no parameters. |
| `QueryString.BuildSeparatorCount` | src/App.tsx:16-23 | n parameters give exactly n - 1 ampersands, and none give none. |
| `QueryString.BuildSplits` | src/App.tsx:16-23 | A non-empty query string splits at `&` into exactly one `enc(key)=enc(value)` segment per entry, in entry order. |
| `QueryString.PairHasNoAmpersand` | src/App.tsx:20 | A segment holds no `&`. It splits at `=` into exactly the encoded key and the encoded value. |
| `QueryString.ParseBuild` | src/App.tsx:16-23 | Parsing a built query string gives back every entry, in order. So the separators are unambiguous. |
| `FormState.Changed` | src/ui/hooks/useForm.ts:12-15 | After a change, the field holds the new value and the key is added if it was absent. Every other key keeps its value, and no key is removed. |
| `FormState.Form.constructor` | src/ui/hooks/useForm.ts:7-8 | The fields start as exactly the defaults the hook is given. |
| `FormState.Form.WithoutDefaults` | src/ui/hooks/useForm.ts:7 | Without defaults, the fields start as the empty map. |
| `FormState.Form.HandleChange` | src/ui/hooks/useForm.ts:10-16 | The state cell becomes the keyed update of its old value. The named field holds the new value, and every other field is as it was. |
| `FormState.Form.ResetFields` | src/ui/hooks/useForm.ts:18-20 | The state cell becomes exactly the defaults captured at creation. |
| `FormState.ChangeIdempotent` | src/ui/hooks/useForm.ts:12-15 | Making the same change twice equals making it once. |
| `FormState.ChangeLastWriteWins` | src/ui/hooks/useForm.ts:12-15 | Of two changes to one field, the later one wins. |
| `FormState.ChangesCommute` | src/ui/hooks/useForm.ts:12-15 | Changes to distinct fields commute. |
| `FormState.ResetIdempotent` | src/ui/hooks/useForm.ts:18-20 | A reset gives the defaults, and resetting twice equals resetting once. |
| `FormState.ResetRestores` | src/ui/hooks/useForm.ts:18-20 | A reset at the end of any history of events leaves exactly the defaults. |
| `FormState.ChangesKeepKeys` | src/ui/hooks/useForm.ts:12-15 | Any history of changes keeps every key that was present. |
| `FormState.DefaultKeysKept` | src/ui/hooks/useForm.ts:12-20 | A form that holds every default field keeps holding it through any mix of changes and resets. |
| `FormState.LastChangeWins` | src/ui/hooks/useForm.ts:12-15 | After a change and then any changes to other fields, the field holds the value of its change. |
| `AddressApp.TwoParams` | src/App.tsx:16-23 | Two parameters whose names need no escaping build `name1=enc(value1)&name2=enc(value2)`. |
| `AddressApp.LookupQuery` | src/App.tsx:83-91 | The lookup sends `postcode=enc(postCode)&streetnumber=enc(houseNumber)`, with a missing field sent as `''`. That string parses back to exactly those two parameters. |
| `AddressApp.FindById` | src/App.tsx:116-118 | `find` gives nothing if and only if no candidate has the id. Otherwise it gives the first candidate that has it. |
| `AddressApp.WithPerson` | src/App.tsx:126 | The added record keeps the candidate's id and properties. `firstName` and `lastName` are added, overriding properties of the same name. |
| `AddressApp.ResolveSelection` | src/App.tsx:110-124 | The "No address selected…" error occurs if and only if there is no selection or no candidate. "Selected address not found" occurs if and only if no candidate has the selected id. Otherwise the first candidate with that id is the one added. |
| `AddressApp.App.constructor` | src/App.tsx:33-59 | The first render has both forms at their defaults, no loading, no error, no selection, no candidates and an empty address book. |
| `AddressApp.App.ChangeAddressField` | src/App.tsx:41 | The lookup form's `handleChange` updates that form only. |
| `AddressApp.App.ChangePersonField` | src/App.tsx:42-46 | The personal-info form's `handleChange` updates that form only. |
| `AddressApp.App.BeginLookup` | src/App.tsx:81-91 | Starting a lookup clears the error and sets loading. It leaves the candidates, the selection and the book untouched, and requests the query string built from the lookup form. |
| `AddressApp.App.CompleteLookup` | src/App.tsx:92-100 | A not-ok response sets the error to exactly "No results found!" and keeps the old candidates. An ok response replaces the candidates with `details` and leaves the error as it was. Either way loading ends, and the selection and the book are unchanged. |
| `AddressApp.App.HandleAddressSubmit` | src/App.tsx:79-101 | The whole lookup with nothing in between: the error ends as "No results found!" or unset, and the candidates end as kept or replaced. |
| `AddressApp.App.Select` | src/App.tsx:166 | Choosing a candidate's radio button selects that candidate and changes nothing else. |
| `AddressApp.App.HandlePersonSubmit` | src/App.tsx:106-127 | A failed check sets its error and adds nothing. Otherwise exactly one record is appended: the found candidate with the current names. The error is not cleared, and the selection, candidates and loading flag are unchanged. |
| `AddressApp.App.ClearAll` | src/App.tsx:208-214 | Both forms return to their defaults, and the error, selection and candidates are cleared. The address book and the loading flag are unchanged. |
| `AddressApp.TypeAndFind` | src/App.tsx:79-91 | Typing a post code and a house number and pressing "Find" requests `postcode=enc(postCode)&streetnumber=enc(houseNumber)`. |
| `AddressApp.AddOneAddress` | src/App.tsx:106-127 | Looking up one candidate, selecting it, typing names and submitting puts exactly that candidate with those names in the book, with no error. |
| `AddressApp.EmptyLookupThenSubmit` | src/App.tsx:92-115 | After selecting a candidate, a lookup that succeeds with no candidates keeps the selection. Submitting then adds nothing and shows "No address selected…". |
| `AddressApp.StaleSelectionThenSubmit` | src/App.tsx:116-124 | After selecting a candidate, a lookup whose candidates all have other ids keeps the stale selection. Submitting then adds nothing and shows "Selected address not found". |
| `AddressApp.FailedLookupKeepsResults` | src/App.tsx:92-96 | A failed lookup after a successful one leaves the earlier candidates, shows "No results found!" and ends loading. |
| `AddressApp.ClearKeepsBook` | src/App.tsx:208-214 | After one address is added, "Clear all fields" empties the candidates, the selection and the personal-info form, and the book still holds the record. |

The class `App` also keeps a ghost set, `fetchedIds`, of every id that a
successful lookup has returned. The constructor starts it empty. Only an
ok response to `CompleteLookup` (or `HandleAddressSubmit`) adds to it,
exactly the ids of `details`, and every other handler's contract says it
is unchanged. The invariant `Valid()` says that every candidate, the
selection and every address-book entry carry an id from this set, and
every handler preserves it. So an entry can only enter the book from a
lookup result.

## Left out

- The `fetch` call, the base URL read from the environment, and JSON
  parsing of the body (src/App.tsx:87-97). These are network I/O. The
  response is an input to `CompleteLookup`: either not ok, or ok with its
  `details` list. Network exceptions and malformed JSON reject the promise
  in the source; they are not modelled.
- Rendering: the JSX, the `Form`, `Radio`, `Address`, `Button` and
  `AddressBook` components, and the CSS. `pages/_app.tsx` is a layout
  wrapper with no logic and is not part of this model.
- The address-book store. Its Redux internals are not part of this model.
  `addAddress` is modelled as appending to a log, `App.addressBook`, which
  starts empty. No deduplication or other store behaviour is modelled.
- React machinery. `useState` batching, `useCallback` memoisation and the
  per-render snapshots of state that handlers close over are not modelled.
  Handlers run one after another on the current state. `resetFields`
  depends on `initialValues` (src/ui/hooks/useForm.ts:18-20), and the page
  passes a fresh defaults object on every render, so a reset restores the
  latest render's defaults. `Form` keeps the defaults given at creation,
  which have the same contents here. `handleAddressSubmit`
  is split at its `await` into `BeginLookup` and `CompleteLookup`, so other
  events may come between them. Overlapping lookups that race are not
  modelled beyond that.
- `console.log(addresses)` (src/App.tsx:108) has no effect on state. The
  no-op `setSelectedAddress(selectedAddress)` (src/App.tsx:119) is modelled
  as "the selection is unchanged".
- Parameter values of type `number` and their conversion to strings are
  not modelled; keys and values are strings.
- `Object.entries` lists integer-like keys first. Parameters are given as
  an ordered list of entries, which is the order `Object.entries` yields
  for the two non-numeric keys the page uses.
- `encodeURIComponent` throws a URIError on a lone surrogate. Strings here
  are sequences of Unicode scalar values, so that input cannot occur. A
  JavaScript string without lone surrogates corresponds to exactly one such
  sequence.
- The page shows the personal-info form, with its name inputs and its
  submit button, only while an address is selected (src/App.tsx:173-195).
  The model lets `ChangePersonField` and `HandlePersonSubmit` run in any
  state. The client methods drive them only while a selection exists.
- `AddressApp.App.Select` requires the index to be that of a current
  candidate, because the radio button for a candidate exists only while it
  is listed.
- Address records are an id plus a map of other string properties. The
  other properties of the endpoint's records are opaque to this code.

Where the TODO comments in src/App.tsx (lines 69-77 and 103-104) ask for
more than the code does, the model follows the code. The code does not clear old results when a lookup
starts, and does not add the house number to each result. It does not
check that the names are non-empty, and it does not clear the error after
a successful add. The model follows all four of these behaviours.
