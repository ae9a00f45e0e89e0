# Toggle rows with a shareable state token

This project models the core of a small browser page (`script.js`): an
ordered collection of three to seven togglable text rows with the rule that
at least one row is always OFF, and a share token that carries the rows'
(text, isOn) pairs in a URL-safe string and restores them.

- `RowModel` (rows.dfy): the `Row` record, the queries `activeCount` and
  `maxOn`, `Min`, the candidate filter of the demotion loop and `rows.find` by id,
  with the counting lemmas the store needs.
- `RowStore` (store.dfy): the module-level `rows` array and `idCounter` as the
  two fields of a `Store` class. `EnforceMaxOn` is the demotion loop. Its
  random pick is an arbitrary choice (`:|`) among the candidates, and every
  contract holds for every choice. `AddRow`, `RemoveRow`, `UpdateText`,
  `ToggleRow`, `DecodeState` (the id-minting part of `decodeState`) and
  `LoadStateFromUrl` are the mutators. Each keeps `Valid()`: between 3 and 7
  rows, at most `length - 1` ON, and distinct ids, all minted by the counter.
- `UrlSafe` (url_safe.dfy): the alphabet substitution and the strip/pad steps
  of base64url (section 5 of RFC 4648, padding omitted as section 3.2
  allows), with both round trips.
- `StateCodec` (codec.dfy): the payload `{v: 1, rows: [{text, isOn}]}`, the
  version check, truncation to 7, rejection below 3, per-entry coercion, and
  the share round trip. `JSON.stringify`/`JSON.parse`, the UTF-8 step and
  `btoa`/`atob` are function values in a `Foreign` record. A `None` result
  stands for the exception the call throws. `Faithful(f)` states what the
  round trip assumes of them: `JSON.parse` undoes `JSON.stringify` on the
  payloads `encodeState` builds; the UTF-8 and base64 decoders undo their
  encoders on every input; `btoa` yields padded standard base64.
- `Wrappers` (wrappers.dfy): `Option`.

A `null` entry of the `rows` array is not coerced to an empty OFF row.
script.js:97-100 evaluates `newRow()` and then reads `item.text`, so a `null`
entry throws after the counter has advanced. The throw is caught at
script.js:136 and the token counts as invalid. `CoerceItem`, `CoerceAll` and
`Store.DecodeState` model that path.

## Model

| member | source | states |
|---|---|---|
| `RowModel.ActiveCount` | script.js:31-33 | the number of ON rows never exceeds the number of rows |
| `RowModel.AllOnIff` | script.js:31-33 | the count equals the length exactly when every row is ON |
| `RowModel.MaxOn` | script.js:35-37 | the ceiling lies strictly below the number of rows (and is never below -1), so a collection at the ceiling always has an OFF row; `MaxOnMeansOneOff` states the converse |
| `RowModel.SameStatesSameCount` | script.js:31-33 | the count depends only on the rows' ON/OFF states, position by position |
| `RowModel.MaxOnMeansOneOff` | script.js:35-37 | `activeCount() <= maxOn()` holds exactly when some row is OFF |
| `RowModel.ActiveCountUpdate` | script.js:158 | rewriting one row changes the count by that row's old and new contribution only |
| `RowModel.OnRows` | script.js:147-155 | the filter yields, in increasing order, exactly the positions of the ON rows, or of the ON rows whose id differs from the protected one |
| `RowModel.OnRowsCount` | script.js:146-147 | the ON-row filter has exactly `activeCount()` entries, so it is non-empty whenever the loop runs |
| `RowModel.OtherOnRow` | script.js:150-155 | with distinct ids and at least two ON rows, excluding the preferred id leaves a candidate |
| `RowModel.DemoteStep` | script.js:157-160 | one demotion lowers the count by exactly one, keeps ids and texts, and keeps every other id's ON rows ON |
| `RowModel.FindRow` | script.js:189-193 | returns the first position holding the id, or nothing when no row has it |
| `RowStore.Store.constructor` | script.js:19-20 | the initial store is three empty OFF rows with ids 1, 2, 3, and it is valid |
| `RowStore.Store.NewRow` | script.js:22-29 | advances the counter by one and returns an empty OFF row carrying the new counter value as its id |
| `RowStore.Store.EnforceMaxOn` | script.js:141-164 | whatever rows are picked: only ON-to-OFF changes; length, order, ids and texts unchanged; the count becomes min(old count, `maxOn`); returns true exactly when the count exceeded `maxOn`, which is exactly when some row changed; with distinct ids and two or more rows, the preferred row is never demoted |
| `RowStore.Store.AddRow` | script.js:166-173 | at 7 rows nothing changes; otherwise the counter advances by one and exactly one empty OFF row is appended, carrying the new counter value, an id no existing row has; the invariant is kept |
| `RowStore.Store.RemoveRow` | script.js:175-187 | at 3 rows nothing changes; otherwise the last row is dropped and the rest are only demoted, down to min(count, `maxOn`); reports a switch-off exactly when every remaining row was ON, and otherwise dropping the last row is the only change; the invariant is kept |
| `RowStore.Store.UpdateText` | script.js:189-195 | an unknown id changes nothing; otherwise only the matching row's text changes; the invariant is kept |
| `RowStore.Store.ToggleRow` | script.js:197-211 | an unknown id changes nothing; otherwise `ToggledFrom` holds of the old and new rows and the first position with the id: the matching row ends with its flipped state and other rows are only demoted; the count goes down by one, or up by one capped at `maxOn`; reports a switch-off exactly when a row was switched ON while the count was already `maxOn`, and otherwise the flip is the only change; the invariant is kept |
| `RowStore.Store.DecodeState` | script.js:97-101 | succeeds exactly when the token decodes; the result is the decoded entries with ids minted in order after the old counter, and the counter advances by their number; a rejected token leaves the rows alone |
| `RowStore.Store.LoadStateFromUrl` | script.js:114-139 | no token or an empty one changes nothing; an undecodable token changes nothing and reports invalid; otherwise the restored rows replace the collection, are only demoted down to `maxOn`, and a switch-off is reported exactly when every restored entry was ON; the counter is unchanged without a token, advanced by one per restored row after a load, and never goes back; the invariant is kept |
| `RowStore.DemotionKeepsWellformed` | script.js:141-164 | demoting rows that have valid bounds and ids yields a valid store once the count is at most `maxOn` |
| `RowStore.ToggleOutcome` | script.js:203-204 | a flip followed by a demotion that protects the flipped id keeps the invariant and yields exactly the `ToggledFrom` state |
| `RowStore.FlipKeepsDistinct` | script.js:203 | flipping one row's toggle keeps the ids distinct, so the demotion can protect the flipped row |
| `RowStore.ToggleKeepsWellformed` | script.js:203-204 | a toggle followed by the demotion keeps the store's invariant |
| `RowStore.ToggledRowKept` | script.js:203-204 | when the demotion protects the toggled id, the toggled row keeps its new state and the others are only demoted |
| `RowStore.ToggleCount` | script.js:203-204 | the count after a toggle and the exact condition under which the demotion fires |
| `RowStore.ActiveCountAppendOff` | script.js:170 | appending an OFF row leaves the count unchanged, so `addRow` needs no demotion |
| `RowStore.MintedRows` | script.js:97-101 | the rows built by the decoding loop are the coerced entries with ids minted in order |
| `RowStore.LoadKeepsWellformed` | script.js:127-128 | restored rows with fresh ids, once demoted to `maxOn`, form a valid store |
| `RowStore.RestoredAllOn` | script.js:128-134 | the restored rows exceed `maxOn` exactly when every shared entry was ON |
| `RowStore.ToggleAllThree` | script.js:197-211 | three fresh rows toggled ON in turn end with two ON; the last toggled row stays ON and exactly one of the first two is OFF |
| `RowStore.ShareAllThree` | script.js:69-102 | decoding the token `encodeState` makes of that state yields exactly the restored rows' (text, isOn) pairs, which are those of the live rows: three rows, two of them ON |
| `UrlSafe.ToUrlAlphabet` | script.js:78-79 | the result has the same length and contains no `+` and no `/` |
| `UrlSafe.FromUrlAlphabet` | script.js:84 | the result has the same length and contains no `-` and no `_` |
| `UrlSafe.StripPadding` | script.js:80 | the result is a prefix that does not end in `=`, and only `=` was removed |
| `UrlSafe.Pad` | script.js:85 | the result extends the input by fewer than four `=` to a multiple of four |
| `UrlSafe.StripExact` | script.js:80 | when everything from position `m` on is `=` and the character before it is not, stripping keeps exactly the first `m` characters |
| `UrlSafe.PadRestores` | script.js:85 | on text cut `p` ≤ 2 characters short of a multiple of four, the padding count is exactly `p` |
| `UrlSafe.ToUrlSafe` | script.js:77-80 | the token has no `+`, no `/` and no trailing `=` |
| `UrlSafe.FromUrlSafe` | script.js:84-85 | the result's length is a multiple of four |
| `UrlSafe.UrlSafeRoundTrip` | script.js:77-85 | un-substituting and re-padding the URL-safe form of any padded standard base64 text gives that text back |
| `UrlSafe.TokenRoundTrip` | script.js:77-85 | a token with no `+`, no `/` and no trailing `=` survives decode-side normalisation followed by the encode-side step |
| `StateCodec.WireItem` | script.js:72-75 | the entry written for a row coerces back to that row's (text, isOn) pair |
| `StateCodec.Payload` | script.js:70-76 | the payload is a version-1 object with one entry per row, each coercing back to that row's (text, isOn) pair |
| `StateCodec.Unwrap` | script.js:84-86 | a parsed value is produced only when `atob` and the UTF-8 decoding both succeed, and it is what `JSON.parse` returns on the decoded text; a failing `atob` rejects the token |
| `StateCodec.Truthy` | script.js:88 | a JSON value is falsy exactly when it is `null`, `false`, `0` or `""` |
| `StateCodec.TextOf` | script.js:99 | a string `text` of an object is kept as it is; any other value reads as the empty text, so a non-empty text comes only from a string field |
| `StateCodec.IsOnOf` | script.js:100 | ON exactly when the entry is an object whose `isOn` is truthy |
| `StateCodec.SameEntriesSameCount` | script.js:97-101 | rows with the same (text, isOn) pairs have the same length and the same number of ON rows |
| `StateCodec.EncodeState` | script.js:69-81 | the share token contains no `+`, no `/` and no trailing `=` |
| `StateCodec.Validate` | script.js:88-95 | accepts exactly a version-1 object whose `rows` is an array of at least 3 entries; yields its first min(n, 7) entries, so 3 to 7 of them |
| `StateCodec.CoerceItem` | script.js:99-100 | fails only on `null`; a string `text` field is kept and a non-empty text comes only from one; ON exactly when the entry is an object with a truthy `isOn` |
| `StateCodec.CoerceAll` | script.js:97-101 | succeeds exactly when no entry is `null`, and then coerces every entry in order |
| `StateCodec.DecodeEntries` | script.js:83-102 | succeeds exactly when the token parses to a version-1 payload with at least 3 entries none of whose first min(n, 7) is `null`; the result is those min(n, 7) entries coerced in order, so 3 to 7 of them |
| `StateCodec.Restore` | script.js:97-101 | the restored rows carry exactly the decoded (text, isOn) pairs |
| `StateCodec.RestoredIdsFresh` | script.js:98 | the restored rows' ids are distinct and all newer than the counter before decoding |
| `StateCodec.CoerceWireItems` | script.js:97-101 | coercing the entries `encodeState` writes gives back each row's (text, isOn) pair |
| `StateCodec.ShareRoundTrip` | script.js:69-102 | under `Faithful`, decoding the token of any rows restores their first min(n, 7) (text, isOn) pairs in order, and rejects fewer than 3 |
| `StateCodec.ShareRoundTripInBounds` | script.js:69-102 | under `Faithful`, decoding the token of any 3 to 7 rows restores exactly their (text, isOn) pairs |

## Left out

- Rendering, DOM lookups, button enabling, the status line, `setEventMessage` and `setShareMessage` (script.js:7-17, 43-51, 213-254) are presentation. `RemoveRow` and `ToggleRow` return only the flag these consume: `None` when they return early and touch no message, otherwise `Some(switchedOffAny)`. `AddRow` and `UpdateText` return nothing; the message `addRow` clears on success (script.js:171) is not modelled.
- Clipboard copy and its fallback (script.js:263-272) are asynchronous browser I/O.
- `builderUrl`, `setupViewMode`, `buildShareLink`, `updateShareLink` and reading `window.location` (script.js:4-5, 53-67, 104-112, 115) are wrappers over the URL API. `LoadStateFromUrl` receives the `state` query value as a parameter (`None` for an absent parameter).
- `JSON.stringify`/`JSON.parse`, `encodeURIComponent`/`unescape`/`escape`/`decodeURIComponent` and `btoa`/`atob` (script.js:77, 86) are library calls. They are parameters, and the round trip assumes `Faithful` of them. Their own encodings are not modelled.
- `Math.random` (script.js:39-41) is floating-point randomness. It is replaced by an arbitrary choice of a candidate index, so uniformity is not modelled.
- JSON numbers are reals. Double rounding (a `v` of `1.0000000000000001` parsing to `1`) is not modelled.
- JavaScript strings are UTF-16 and may hold lone surrogates, on which `encodeURIComponent` throws. Dafny strings hold Unicode scalar values only, so `EncodeState` is total here.
- Property access models the keys the code reads (`v`, `rows`, `text`, `isOn`) as own properties of objects. Inherited properties do not bear on those keys.
- Ids are the counter values N of the source's `row-N` strings. Row objects are values that the store reassigns in place. Nothing outside `rows` holds them, because the page's event handlers refer to rows by id.
- `RowStore.Store.EnforceMaxOn` requires a non-empty collection. On an empty one the source assigns `isOn` on the `undefined` pick (script.js:158), which throws a TypeError. Every caller has at least three rows.
- `RowStore.Store.DecodeState`: on a rejected token it states only that the counter did not go back, not by how much `newRow()` advanced it before the failure.
