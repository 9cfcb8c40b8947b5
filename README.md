# url-parameter-modifier: the URL-for-sharing utility in Dafny

This project models `src/utilities/update-url-for-sharing/index.ts`. That
utility takes a URL and a record of new parameters, and writes the
parameters into either the URL's search (query) component or its hash
(fragment) component. It removes every new key from the other component,
so no key is in both after the call. Keys may have no value
(`undefined`, written without `=`). Keys and values are written with
`encodeURIComponent` and read with `decodeURIComponent`.

The model has six modules.

- `Wrappers` holds `Option` and `Result`.
- `Splitting` models `String.prototype.split` and `Array.prototype.join`
  with a one-character separator.
- `UriComponent` models `encodeURIComponent` and `decodeURIComponent`
  (sections 19.2.6.2 and 19.2.6.4 of ECMA-262). It covers the full UTF-8
  form of RFC 3629, the upper-case hex of section 2.1 of RFC 3986, and
  every URIError case of the decoder.
- `ParameterRecord` models a `Record<string, string | undefined>` object.
  It is a sequence of entries in `Object.entries` order. `Put` is the
  spread `{...acc, [k]: v}`: it replaces the value in place, or appends
  the key. `PutAll` is the `reduce` that spreads many entries in turn.
  `RemoveKeys` is the `filter`/`fromEntries` step.
- `ParameterString` models the component decoder
  `constructParametersFromString`, the encoder
  `constructParameterStringFromParameters`, and the delimiter stripper.
- `UpdateParameters` models `updateUrlParameters`.
- `ShareUrl` models `updateUrlForSharing`. The URL is an abstract record
  of a prefix (scheme, authority and path), a query and a fragment, with
  the `search`/`hash` getters and setters and `href`. `UrlObject` is the
  mutable URL object the function builds and assigns to. The URL
  constructor's parser is a parameter: `None` means it throws a
  TypeError, which becomes `Err(InvalidUrl)`. A URIError from decoding
  becomes `Err(UriError)`.

A token without `=` becomes a key exactly as written, without
percent-decoding (index.ts:52-56), and `ParameterString.ParseToken` does
the same. Only the two sides of a token with `=` are decoded
(index.ts:59-64). The encoder still encodes every key (index.ts:88), so a
key without a value that has characters `encodeURIComponent` escapes is
rewritten on every round. For example, `a%20b` becomes `a%2520b`
(`ParameterString.ValuelessTokenRewritten`).

A key repeated within one component keeps its first position and takes
its last value. That is what spreading into an existing key does.

## Model

| member | source | states |
|---|---|---|
| Splitting.Split | src/utilities/update-url-for-sharing/index.ts:44 | `split`: always at least one piece; no piece contains the separator; more than one piece exactly when the separator occurs; joining the pieces gives the string back |
| Splitting.Join | src/utilities/update-url-for-sharing/index.ts:96-103 | `join`: the join starts with the first piece, and with more than one piece the separator follows it |
| Splitting.SplitAtFirst | src/utilities/update-url-for-sharing/index.ts:59 | the first piece is the text before the first separator, and the remaining pieces are the split of the text after it |
| Splitting.SplitJoin | src/utilities/update-url-for-sharing/index.ts:103 | splitting a join of separator-free pieces gives the pieces back |
| Splitting.JoinOmits | src/utilities/update-url-for-sharing/index.ts:96-103 | a character that is not the separator is in a join only if some piece has it |
| Splitting.JoinEmpty | src/utilities/update-url-for-sharing/index.ts:103 | a join is empty exactly for no pieces or one empty piece |
| Splitting.SplitTrailingSeparator | src/utilities/update-url-for-sharing/index.ts:44 | a trailing separator adds exactly one empty piece |
| UriComponent.HexDigit | src/utilities/update-url-for-sharing/index.ts:88 | the digit the encoder writes is an upper-case hex digit that the decoder reads back as the same value |
| UriComponent.Utf8 | src/utilities/update-url-for-sharing/index.ts:88 | the UTF-8 form of a character is 1 to 4 bytes, one byte exactly below U+0080; the lead byte announces the length, the later bytes are continuation bytes, and the decoder's scalar check maps the bytes back to the character |
| UriComponent.Utf8Scalar | src/utilities/update-url-for-sharing/index.ts:63-64 | the scalar read from a lead byte and its continuation bytes is at least U+0080 and needs exactly that many bytes, so overlong forms are rejected |
| UriComponent.Utf8OfScalar | src/utilities/update-url-for-sharing/index.ts:63-64 | the bytes the decoder accepts are exactly the UTF-8 form of the character they decode to |
| UriComponent.EscapeAll | src/utilities/update-url-for-sharing/index.ts:88 | three characters per byte, only unreserved characters and `%` |
| UriComponent.Encode | src/utilities/update-url-for-sharing/index.ts:88 | `encodeURIComponent`: output has only unreserved characters and `%`; a string of unreserved characters is unchanged; any other string gets strictly longer |
| UriComponent.Decode | src/utilities/update-url-for-sharing/index.ts:63-64 | `decodeURIComponent`: text without `%` is unchanged; a result is never longer than its input |
| UriComponent.Continuations | src/utilities/update-url-for-sharing/index.ts:63-64 | reading k escaped continuation bytes gives k bytes, each a continuation byte, and the 3k characters they take fit in the text |
| UriComponent.ContinuationsEscaped | src/utilities/update-url-for-sharing/index.ts:63-64 | every `%` inside an accepted run of continuation escapes is followed by two hex digits |
| UriComponent.DecodeEscape | src/utilities/update-url-for-sharing/index.ts:63-64 | an accepted escape sequence uses at least three characters and no more than the text has |
| UriComponent.DecodeEscapeEscaped | src/utilities/update-url-for-sharing/index.ts:63-64 | every `%` inside an accepted escape sequence is followed by two hex digits |
| UriComponent.DecodeEscapeOfChar | src/utilities/update-url-for-sharing/index.ts:63-64 | the escapes written for a character decode to that character and use up exactly its escapes |
| UriComponent.DecodeAfterEncodedChar | src/utilities/update-url-for-sharing/index.ts:63-64 | decoding an encoded character and then any text gives the character and then the text's decoding, failing exactly when the text fails |
| UriComponent.DecodeEncode | src/utilities/update-url-for-sharing/index.ts:63-64 | `decodeURIComponent(encodeURIComponent(s)) == s` for every string |
| UriComponent.DecodeLiteralPrefix | src/utilities/update-url-for-sharing/index.ts:63-64 | a `%`-free prefix decodes to itself, in front of whatever the rest decodes to |
| UriComponent.DecodeRejectsBadEscape | src/utilities/update-url-for-sharing/index.ts:63-64 | a `%` anywhere in the text that is not followed by two hex digits makes the decoder throw, since no escape sequence before it can take it up |
| ParameterRecord.Put | src/utilities/update-url-for-sharing/index.ts:53-56 | spreading `[k]: v` into a record: an existing key keeps its place and a new key is appended; k then has the value v; every other key keeps its value; unique keys stay unique |
| ParameterRecord.Dedup | src/utilities/update-url-for-sharing/index.ts:46-72 | keys in order of first occurrence: no duplicates, the same keys, never longer, and ordered by the index at which each key first occurs |
| ParameterRecord.DedupOfDistinct | src/utilities/update-url-for-sharing/index.ts:46-72 | keys that are already distinct are kept as they are |
| ParameterRecord.LastOfUnique | src/utilities/update-url-for-sharing/index.ts:141-152 | with unique keys, the last value of a key is its only value |
| ParameterRecord.Last | src/utilities/update-url-for-sharing/index.ts:46-72 | the value is that of an entry with the key after which no entry has the key, i.e. the value the last spread of the key leaves |
| ParameterRecord.PutAllKeys | src/utilities/update-url-for-sharing/index.ts:141-152 | the fold's result has unique keys, and they are the target's keys followed by the new keys in order of first occurrence |
| ParameterRecord.PutAll | src/utilities/update-url-for-sharing/index.ts:141-152 | the fold keeps the target's keys in front in their order, and adds at most one entry per written entry |
| ParameterRecord.PutAllIntoEmpty | src/utilities/update-url-for-sharing/index.ts:46-72 | folding entries into `{}` gives unique keys in order of first occurrence |
| ParameterRecord.PutAllMembers | src/utilities/update-url-for-sharing/index.ts:141-152 | the fold's result has exactly the keys of the target and of the entries |
| ParameterRecord.PutAllGet | src/utilities/update-url-for-sharing/index.ts:141-152 | a key of the entries takes its last value among them; a target key that the entries lack keeps its value |
| ParameterRecord.RemoveKeys | src/utilities/update-url-for-sharing/index.ts:133-139 | the filter keeps exactly the entries whose key is not dropped, and exactly the keys not dropped |
| ParameterRecord.RemoveKeysOrdered | src/utilities/update-url-for-sharing/index.ts:133-139 | the filter keeps keys unique and keeps the record's order |
| ParameterRecord.RemoveAbsentKeys | src/utilities/update-url-for-sharing/index.ts:133-139 | dropping keys the record does not have changes nothing |
| ParameterRecord.Overridden | src/utilities/update-url-for-sharing/index.ts:141-152 | the target's entries with overridden values have the target's keys in the same order |
| ParameterRecord.PutAllClosedForm | src/utilities/update-url-for-sharing/index.ts:141-152 | with unique keys, the fold replaces shared keys' values in place and appends the other entries in their order |
| ParameterRecord.PutAllIntoEmptyCopies | src/utilities/update-url-for-sharing/index.ts:141-152 | folding a record with unique keys into `{}` copies it |
| ParameterString.StripComponentDelimiter | src/utilities/update-url-for-sharing/index.ts:27-31 | `slice(1)`: "" stays ""; otherwise exactly the first character is removed |
| ParameterString.ParseToken | src/utilities/update-url-for-sharing/index.ts:48-69 | a token without `=` becomes itself, undecoded, with no value; the value is absent exactly when the token has no `=` |
| ParameterString.ParseTokens | src/utilities/update-url-for-sharing/index.ts:46-72 | reading succeeds exactly when every token reads, one entry per token, each equal to its token's reading |
| ParameterString.DecodeParameters | src/utilities/update-url-for-sharing/index.ts:39-73 | "" decodes to `{}`; a decoded record has unique keys |
| ParameterString.EncodeEntry | src/utilities/update-url-for-sharing/index.ts:85-99 | an encoded entry has no `&`, `?` or `#`; it has `=` exactly when the value is present; it is empty only for the empty key without a value |
| ParameterString.EncodeEntries | src/utilities/update-url-for-sharing/index.ts:84-101 | the `map`: one token per entry, each the encoding of that entry |
| ParameterString.EncodedOmits | src/utilities/update-url-for-sharing/index.ts:88-94 | encoded text has no `&`, `=`, `?` or `#`, and is empty only for the empty string |
| ParameterString.EncodeParameters | src/utilities/update-url-for-sharing/index.ts:81-104 | a written parameter string has no `?` or `#`; it is empty exactly for `{}` and for the lone empty key without a value |
| ParameterString.SplitEncodedParameters | src/utilities/update-url-for-sharing/index.ts:44-103 | a written non-empty record splits on `&` back into its encoded entries |
| ParameterString.ParseTokenFields | src/utilities/update-url-for-sharing/index.ts:59-69 | the key is the decoded text before the first `=`, and the value is the decoded text up to the next `=`; reading fails exactly when one of the two fails to decode |
| ParameterString.ParsePair | src/utilities/update-url-for-sharing/index.ts:59-69 | a token with exactly one `=` reads as its two decoded sides, and fails when either side fails to decode |
| ParameterString.TextAfterSecondSeparatorIgnored | src/utilities/update-url-for-sharing/index.ts:59-61 | whatever follows a second `=` is dropped |
| ParameterString.ParseEncodedPair | src/utilities/update-url-for-sharing/index.ts:59-98 | an encoded `key=value` reads back as the key and the value |
| ParameterString.ParseEncodedEntry | src/utilities/update-url-for-sharing/index.ts:48-99 | an encoded entry reads back as itself, except that a key without a value stays encoded |
| ParameterString.DecodedRecord | src/utilities/update-url-for-sharing/index.ts:44-72 | a non-empty component decodes exactly when every token reads; then its keys are the tokens' keys in order of first occurrence, each with the last value read for it |
| ParameterString.TrailingSeparator | src/utilities/update-url-for-sharing/index.ts:44-56 | a trailing `&` adds the empty key without a value, and nothing else |
| ParameterString.ReadBack | src/utilities/update-url-for-sharing/index.ts:48-69 | the entries read from an encoded record: one per entry |
| ParameterString.DecodeEncodedRecord | src/utilities/update-url-for-sharing/index.ts:39-104 | decoding a written record folds the entries read back from its tokens |
| ParameterString.RoundTripSufficient | src/utilities/update-url-for-sharing/index.ts:39-104 | a round-tripping record with unique keys is read back unchanged |
| ParameterString.RoundTripNecessary | src/utilities/update-url-for-sharing/index.ts:39-104 | if a record is read back unchanged, each key without a value is made of unreserved characters |
| ParameterString.DecodeEncodeParameters | src/utilities/update-url-for-sharing/index.ts:39-104 | decoding a written record gives it back exactly when its keys are unique, every key without a value is unreserved text, and it is not the lone empty valueless key |
| ParameterString.ValuelessTokenRead | src/utilities/update-url-for-sharing/index.ts:52-56 | a component that is one token without `=` reads as that raw token with no value |
| ParameterString.ValuelessTokenRewritten | src/utilities/update-url-for-sharing/index.ts:52-92 | that token is written back encoded, which leaves it unchanged exactly when all its characters are unreserved |
| ParameterString.EncodedLacks | src/utilities/update-url-for-sharing/index.ts:88 | encoded text has no character other than unreserved ones and `%` |
| ParameterString.EncodedParameterText | src/utilities/update-url-for-sharing/index.ts:81-104 | a written parameter string has only unreserved characters, `%`, `=` and `&` |
| UpdateParameters.UpdateUrlParameters | src/utilities/update-url-for-sharing/index.ts:119-162 | every new key ends up in the target with its last value in newParameters, and is no longer in the other record |
| UpdateParameters.PutAllNewKeys | src/utilities/update-url-for-sharing/index.ts:141-152 | every key the fold writes is in the result with its last written value |
| UpdateParameters.UpdatedTarget | src/utilities/update-url-for-sharing/index.ts:125-161 | the flag picks the target. After the update, every new key holds its new value and the target's other keys keep theirs. The target's keys keep their order, and the new keys follow in the order given. The keys stay unique, and the closed form is the overridden target followed by the new entries it lacked |
| UpdateParameters.UpdatedOpposing | src/utilities/update-url-for-sharing/index.ts:129-161 | the other component keeps exactly its entries whose keys are not new, in its order, with unique keys. It then has none of the new keys, and it is unchanged when there is no conflict |
| UpdateParameters.UpdatedRecordsUnique | src/utilities/update-url-for-sharing/index.ts:119-162 | both returned records have unique keys when the inputs have |
| UpdateParameters.FlagChoosesTarget | src/utilities/update-url-for-sharing/index.ts:125-161 | targeting the hash is targeting the search with the two records swapped |
| ShareUrl.HrefOf | src/utilities/update-url-for-sharing/index.ts:210 | `href` starts with the URL's prefix |
| ShareUrl.SearchOf | src/utilities/update-url-for-sharing/index.ts:188 | `search` is "" exactly without a query, otherwise `?` and the query |
| ShareUrl.HashOf | src/utilities/update-url-for-sharing/index.ts:184 | `hash` is "" exactly without a fragment, otherwise `#` and the fragment |
| ShareUrl.WithoutLeading | src/utilities/update-url-for-sharing/index.ts:207-208 | a setter drops one leading delimiter and nothing else |
| ShareUrl.WithSearch | src/utilities/update-url-for-sharing/index.ts:208 | setting `search` changes only the query, and `search` then reads as the value with a `?` in front |
| ShareUrl.WithHash | src/utilities/update-url-for-sharing/index.ts:207 | setting `hash` changes only the fragment, and `hash` then reads as the value with a `#` in front |
| ShareUrl.UrlObject.constructor | src/utilities/update-url-for-sharing/index.ts:181 | the new URL object holds the parsed URL |
| ShareUrl.UrlObject.SetSearch | src/utilities/update-url-for-sharing/index.ts:208 | `url.search = value` turns the object's URL into `WithSearch` of it |
| ShareUrl.UrlObject.SetHash | src/utilities/update-url-for-sharing/index.ts:207 | `url.hash = value` turns the object's URL into `WithHash` of it |
| ShareUrl.UpdateUrlForSharing | src/utilities/update-url-for-sharing/index.ts:176-211 | an unparsable URL throws InvalidUrl; otherwise the result is the `href` of `UpdatedUrl`, or its URIError |
| ShareUrl.UpdatedUrl | src/utilities/update-url-for-sharing/index.ts:181-210 | the update succeeds exactly when both components' parameters decode; on success the prefix is kept; a failure is always a URIError |
| ShareUrl.ComponentsRead | src/utilities/update-url-for-sharing/index.ts:183-189 | stripping the delimiter from `search` and `hash` gives the query and the fragment |
| ShareUrl.UpdatedUrlComponents | src/utilities/update-url-for-sharing/index.ts:191-210 | on success the prefix is kept, and the query and fragment become the written updated records, stored as they are |
| ShareUrl.ReadBackUpdatedUrl | src/utilities/update-url-for-sharing/index.ts:176-211 | reading the new URL's components gives the updated records when those records round-trip |
| ShareUrl.ShareFromWrittenRecords | src/utilities/update-url-for-sharing/index.ts:176-211 | for components written from records that round-trip, the new URL has the prefix, then the target with shared keys replaced in place and new keys appended, and the other component without the new keys |
| ShareUrl.UntouchedComponentKept | src/utilities/update-url-for-sharing/index.ts:176-211 | a written component that shares no key with the new parameters comes out unchanged, character for character, when the other component is the target |
| ShareUrl.ShareFromBareUrl | src/utilities/update-url-for-sharing/index.ts:176-211 | a URL with no query and no fragment gets the written new parameters as the target component, and the other component stays absent |

## Left out

- URL parsing and serialisation belong to the URL standard's `URL` class, not to this utility. The parser is a parameter of `ShareUrl.UpdateUrlForSharing`.
- The URL is an abstract record in which an empty query or fragment is absent. The URL standard also has an empty but present query or fragment (`https://x/?`). That difference would show on input only, because the utility always sets both components.
- ShareUrl.WithSearch: the URL standard's setter also percent-encodes characters of its query set, and does not store the value exactly. The written parameter string has only unreserved characters, `%`, `=` and `&` (`ParameterString.EncodedParameterText`). For those characters the only difference is that `'` becomes `%27` in the query of a special-scheme URL such as `https:`.
- ShareUrl.WithHash: the fragment setter's percent-encode set does not touch any character of a written parameter string. It is not modelled for other values.
- Lone surrogate code units cannot occur, because Dafny strings are sequences of Unicode scalar values. That leaves out the URIError `encodeURIComponent` throws for them, and the decoder's ability to produce them.
- These JavaScript object quirks are not modelled:
  - keys that look like array indices are enumerated first, in numeric order;
  - the conflict test `opposingParameterKey in newParameters` (index.ts:135) also finds `__proto__` and the other keys `newParameters` inherits from `Object.prototype`, so an opposing key `__proto__` or `toString` is always dropped. The model drops an opposing key only when `newParameters` has it as an own key.

  The record is plain insertion order. The keys are computed (index.ts:55, 68, 148), so spreading makes `__proto__` an ordinary own key, and the model treats it like any other key.
- The React components, the DOM mounting and the styling configuration have no algorithmic content.
