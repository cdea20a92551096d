# Security resolution and guest byte marshalling, in Dafny

This project models two parts of the map runtime.

The first part is the security layer of the core that runs inside the sandbox (`security.rs`):
- `prepare_security_map` joins the provider's declared security schemes with the caller's secrets. It produces a map from scheme id to a credential or to a deferred error. It fails with `SecurityMisconfigured` when a secret has the wrong kind.
- `format_errors` renders misconfigurations as lines of text.
- `resolve_security` rewrites an outgoing HTTP request for the scheme it names. It can set the `Authorization` header (HTTP Basic, Bearer), set an API key in a header, in the query, in the URL path template, or at a field path inside the JSON body.
- `prepare_provider_parameters` collects the parameter defaults.

The second part is the guest's standard-library helpers (`internal.ts`):
- the growable byte buffer `Bytes`, with its length/capacity invariant, geometric growth, and the `utf8`/`base64` text codings;
- `ByteStream.readToEnd`, which drains a stream handle in 8192-byte chunks;
- `ensureMultimap`, which normalises header-like records;
- the JSON replacer/reviver pair, which writes a `Buffer` as `{ type: "Buffer", data: [...] }` and reads it back.

Modules:
- `Common`: octets, `Option` and `Result`.
- `Base64`: section 4 of RFC 4648, both directions, with canonical padding.
- `Utf8`: RFC 3629, both directions.
- `SecurityConfig`: the security map, the error report and the parameter defaults.
- `JsonBody`: the body as a `serde_json` value tree, splitting the field path, and writing along it.
- `SecurityResolve`: the request rewrite, both as a function `Resolve` and as the in-place method `ResolveSecurity` on an `HttpRequest` object.
- `ByteBuffer`: the classes `Bytes` and `ByteStream`.
- `JsValues`: the JavaScript values the helpers inspect, and `toString`.
- `MultiMap`: `ensureMultimap`.
- `MapValueJson`: the replacer/reviver pair, and the value trees `JSON.stringify`/`JSON.parse` produce with them.

Operations that loop or update state in the source are methods with loop invariants, proved against a specification function:
- `PrepareSecurityMap`, `FormatErrors`, `CollectSecurityValues`, `ResolveSecurity` and `SetAtPath`;
- `Bytes.Reserve`, `Bytes.Extend`, `ByteStream.ReadToEnd` and `EnsureMultimap`.

The lemmas then state what the source promises about those functions.

## Model

| member | source | states |
|---|---|---|
| `SecurityConfig.FormatErrors` | core/core_to_map_std/src/unstable/security.rs:114-127 | The loop builds exactly `FormatLines(errors)`: one "Value for {id} is misconfigured. Expected {expected}" line per error, each ending in a newline, in order, and "" for no errors. |
| `SecurityConfig.FormatLinesAppend` | core/core_to_map_std/src/unstable/security.rs:114-127 | The report of `a ++ b` is the report of `a` followed by the report of `b`. Each error contributes its own line, in order. |
| `SecurityConfig.FormatLinesLineCount` | core/core_to_map_std/src/unstable/security.rs:114-127 | When no id or expectation holds a newline, the report has exactly one newline per error. |
| `SecurityConfig.ErrorMessageLineCount` | core/core_to_map_std/src/unstable/security.rs:94-98 | The `SecurityMisconfigured` message is the heading line "Security is misconfigured:" followed by the report. It has one more line than there are errors. |
| `SecurityConfig.ToPerformException` | core/core_to_map_std/src/unstable/security.rs:99-106 | The conversion to `PerformException` carries the code `PrepareSecurityMapError`. Its message has the heading plus one line per error. |
| `SecurityConfig.Classify` | core/core_to_map_std/src/unstable/security.rs:143-192 | A secret is an API key iff it has `apikey`. Otherwise it is Basic iff it has `username`, and otherwise Bearer. Each kind carries the string fields of the secret. |
| `SecurityConfig.CollectSecurityValues` | core/core_to_map_std/src/unstable/security.rs:139-201 | The loop classifies every secret under its id. The ids are exactly the keys of the secrets object. A secrets value that is not an object yields no values. |
| `SecurityConfig.Grant` | core/core_to_map_std/src/unstable/security.rs:235-307 | A matching secret becomes a credential. It has the scheme's placement, name and body type plus the apikey; or username and password; or the scheme's bearer format plus the token. |
| `SecurityConfig.Outcome` | core/core_to_map_std/src/unstable/security.rs:206-310 | A secret of the wrong kind gives a misconfiguration that names the expected shape. A missing secret gives an `Error` entry expecting "not empty value" (API key, Basic) or "not None" (Bearer). A matching secret gives a `Security` entry. |
| `SecurityConfig.FoldErrors` | core/core_to_map_std/src/unstable/security.rs:203-310 | The error list the loop collects is exactly the misconfigurations, in scheme order. |
| `SecurityConfig.MisconfiguredErrorsEmpty` | core/core_to_map_std/src/unstable/security.rs:312-316 | The error list is empty iff no scheme is misconfigured. |
| `SecurityConfig.FoldKeys` | core/core_to_map_std/src/unstable/security.rs:206-310 | The map's keys are exactly the ids of the schemes that are not misconfigured. |
| `SecurityConfig.FoldEntry` | core/core_to_map_std/src/unstable/security.rs:206-310 | A scheme's entry is in the map unless a later scheme with the same id inserts another entry. |
| `SecurityConfig.PrepareSecurityMap` | core/core_to_map_std/src/unstable/security.rs:130-317 | No declared schemes gives `Ok` of the empty map. Otherwise the result is `Err(SecurityMisconfigured(errors))` iff some scheme is misconfigured, with those errors in scheme order. On success the map is the fold over the schemes, with one key per declared id. |
| `SecurityConfig.PrepareProviderParameters` | core/core_to_map_std/src/unstable/security.rs:447-459 | No parameters gives the empty object, and every value is a `String`. |
| `SecurityConfig.DefaultsOfSpec` | core/core_to_map_std/src/unstable/security.rs:452-457 | A name is present iff some parameter of that name has a default. Its value is the last such default. |
| `JsonBody.Segments` | core/core_to_map_std/src/unstable/security.rs:393-394 | Splitting on '/' and dropping empty pieces gives non-empty, slash-free segments. Together they are exactly the name's other characters, in order. |
| `JsonBody.SegmentsAtSlash` | core/core_to_map_std/src/unstable/security.rs:393-394 | Every '/' is a cut: the segments of `a/b` are the segments of `a` followed by those of `b`. |
| `JsonBody.SegmentsOfSlashFree` | core/core_to_map_std/src/unstable/security.rs:393-394 | A piece without '/' is one segment when non-empty and is dropped when empty. With `SegmentsAtSlash` this fixes the result for every name. |
| `JsonBody.BodyKeysEmpty` | core/core_to_map_std/src/unstable/security.rs:393-404 | A name yields no keys iff it is non-empty and made of '/' only, which is when the rewrite reports an invalid field name. |
| `JsonBody.AssignOutcome` | core/core_to_map_std/src/unstable/security.rs:406-420 | Writing along the key path succeeds iff every proper prefix of the path reads an object. A failure names the first prefix that does not. |
| `JsonBody.AssignThenGet` | core/core_to_map_std/src/unstable/security.rs:406-422 | After the write, the key path reads the written value. |
| `JsonBody.AssignKeepsOthers` | core/core_to_map_std/src/unstable/security.rs:406-422 | After the write, every path that leaves the key path reads as before. |
| `JsonBody.SetAtPath` | core/core_to_map_std/src/unstable/security.rs:406-422 | The `while key_idx` walk plus the write, done with loops, computes exactly `Assign`. |
| `SecurityResolve.ReplaceAllAbsent` | core/core_to_map_std/src/unstable/security.rs:375-377 | A URL without the "{name}" template is left unchanged. |
| `SecurityResolve.ReplaceAllSelf` | core/core_to_map_std/src/unstable/security.rs:375-377 | Replacing the template by itself changes nothing. |
| `SecurityResolve.SplitOnJoin` | core/core_to_map_std/src/unstable/security.rs:375-377 | Cutting the URL at the leftmost non-overlapping occurrences of "{name}" and joining the pieces with "{name}" gives the URL back. |
| `SecurityResolve.SplitOnPieces` | core/core_to_map_std/src/unstable/security.rs:375-377 | No piece between the cuts holds "{name}", so every occurrence is a cut. |
| `SecurityResolve.ReplaceAllSplit` | core/core_to_map_std/src/unstable/security.rs:375-377 | The rewritten URL is the same pieces joined with the API key instead: every occurrence is replaced, left to right, and nothing else changes. |
| `SecurityResolve.ResolveRefusals` | core/core_to_map_std/src/unstable/security.rs:323-341 | No security gives `Ok` with the request unchanged. An unknown id gives "Security configuration for {id} is missing". An `Error` entry gives its single formatted line. |
| `SecurityResolve.ResolveHeaders` | core/core_to_map_std/src/unstable/security.rs:342-440 | Basic sets `Authorization` to ["Basic " + Base64(UTF-8 of "user:password")]. Bearer sets it to ["Bearer " + token]. An API key in a header or in the query sets `name` to [apikey]. An API key in the path replaces every "{name}" in the URL. A body key without a body type fails with "Missing body type". |
| `SecurityResolve.ResolveTouchesOneField` | core/core_to_map_std/src/unstable/security.rs:330-442 | A successful rewrite changes at most one of url, headers, query and body, and never the security id. |
| `SecurityResolve.BasicAuthorizationDecodes` | core/core_to_map_std/src/unstable/security.rs:346-348 | The Basic header value is "Basic " followed by a Base64 text. That text decodes to the UTF-8 bytes of the username, ":", and the password. |
| `SecurityResolve.InjectIntoBodyRefusals` | core/core_to_map_std/src/unstable/security.rs:383-404 | In order: no body gives "Api key placement is set to body but the body is empty"; a parse error gives "Failed to parse body: …"; a name with no keys gives "Invalid field name '…'"; a root that is neither object nor null makes `serde_json` panic. |
| `SecurityResolve.InjectIntoBodyPathCheck` | core/core_to_map_std/src/unstable/security.rs:406-429 | The body rewrite fails with "Field values on path '/k1/…/kd' isn't object" at the first proper prefix that is not an object. Otherwise it returns the serialised body with the key written. |
| `SecurityResolve.InjectIntoBodyReadsBack` | core/core_to_map_std/src/unstable/security.rs:406-429 | With a codec that reads back what it writes, the new body holds the API key at the key path. It is unchanged along every other path. |
| `SecurityResolve.ResolveSecurity` | core/core_to_map_std/src/unstable/security.rs:319-445 | The in-place rewrite succeeds iff `Resolve` does. On success the request becomes `Resolve`'s result. On failure the error is `Resolve`'s and the request is unchanged. |
| `Base64.Encode` | core/core_to_map_std/src/unstable/security.rs:346-347 | The encoding of n octets has 4·⌈n/3⌉ characters. |
| `Base64.EncodeAlphabet` | core/core_to_map_std/src/unstable/security.rs:346-347 | Every character of the encoding is from the alphabet, except '=' padding in the last two positions. |
| `Base64.DecodeEncode` | core/core_to_map_std/src/unstable/security.rs:346-347 | Decoding the encoding of any octet string gives it back. |
| `Base64.EncodeDecode` | integration/map-std/src/internal.ts:77-89 | A text the decoder accepts is the encoding of what it decodes to. |
| `Utf8.EncodeConcat` | core/core_to_map_std/src/unstable/security.rs:346-347 | The UTF-8 of a concatenation is the concatenation of the UTF-8 of the parts. |
| `Utf8.EncodeAscii` | core/core_to_map_std/src/unstable/security.rs:346-347 | A string is ASCII iff its UTF-8 has one octet per character. Those octets are the code points. |
| `Utf8.DecodeEncode` | integration/map-std/src/internal.ts:64-89 | Decoding the UTF-8 of any string gives the string back. |
| `Utf8.EncodeDecode` | integration/map-std/src/internal.ts:64-89 | Well-formed UTF-8 is the encoding of what it decodes to. |
| `ByteBuffer.Bytes.constructor` | integration/map-std/src/internal.ts:11-14 | The buffer holds the given array with the given length, within capacity. |
| `ByteBuffer.Bytes.WithCapacity` | integration/map-std/src/internal.ts:16-18 | A new buffer has length 0, no data, and the requested capacity (0 when none is given), zero-filled. |
| `ByteBuffer.Bytes.FromArray` | integration/map-std/src/internal.ts:20-22 | A new buffer has length = capacity = the array's length. Its data is the numbers modulo 256. |
| `ByteBuffer.ToUint8` | integration/map-std/src/internal.ts:20-22 | The `Uint8Array` conversion keeps numbers 0..255 and is congruent modulo 256 otherwise. |
| `ByteBuffer.Bytes.ToArray` | integration/map-std/src/internal.ts:24-26 | Gives the `len` initialised bytes, in order. |
| `ByteBuffer.Bytes.FromArrayToArray` | integration/map-std/src/internal.ts:20-26 | An array of octets comes back unchanged from `fromArray` followed by `toArray`. |
| `ByteBuffer.Bytes.Data` | integration/map-std/src/internal.ts:36-38 | `data` has exactly `len` bytes. |
| `ByteBuffer.Bytes.UninitData` | integration/map-std/src/internal.ts:40-42 | `uninitData` has `capacity − len` bytes. `data` followed by `uninitData` is the whole backing array. |
| `ByteBuffer.Bytes.Reserve` | integration/map-std/src/internal.ts:44-56 | Nothing changes when `capacity ≥ len + k`. Otherwise there is a fresh zero-padded array of capacity max(2·capacity, len + k). Length and data are kept, capacity never decreases, and `len ≤ capacity` holds. |
| `ByteBuffer.Bytes.Extend` | integration/map-std/src/internal.ts:58-62 | New data = old data ++ chunk and new length = old length + |chunk|. Capacity follows the reserve rule, and `len ≤ capacity` holds. |
| `ByteBuffer.Bytes.Decode` | integration/map-std/src/internal.ts:64-75 | The text depends on the first `len` bytes only. The encoding defaults to "utf8", and any encoding but "utf8"/"base64" fails. |
| `ByteBuffer.Bytes.Encode` | integration/map-std/src/internal.ts:77-89 | The new buffer is full and holds the bytes of the text in the encoding, which defaults to "utf8". Coding errors and unknown encodings fail. |
| `ByteBuffer.UnknownEncodingFails` | integration/map-std/src/internal.ts:64-89 | Any encoding other than "utf8" and "base64" fails with `encoding "X" not implemented`, both ways. |
| `ByteBuffer.TextRoundTrip` | integration/map-std/src/internal.ts:64-89 | With standard host coders, encoding a text and decoding the bytes gives the text back, in both encodings. UTF-8 encoding never fails. |
| `ByteBuffer.BytesRoundTrip` | integration/map-std/src/internal.ts:64-89 | With standard host coders, decoding bytes and encoding the text gives the bytes back, in both encodings. Base64 decoding never fails. |
| `ByteBuffer.ByteStream.constructor` | integration/map-std/src/internal.ts:92-96 | A stream starts open, on its handle, with the host reads still to come. |
| `ByteBuffer.ByteStream.StreamRead` | integration/map-std/src/internal.ts:108-108 | The host read copies the next chunk into the read buffer and returns its size. At the end it returns 0. An error propagates, and a closed handle is an error. |
| `ByteBuffer.ByteStream.ReadToEnd` | integration/map-std/src/internal.ts:98-117 | The result's data is the concatenation, in order, of the chunks before the first zero-count read, in a buffer of capacity at least 8192. The first read error propagates. It performs exactly `Consumed` reads and leaves the handle open. |
| `ByteBuffer.DrainChunks` | integration/map-std/src/internal.ts:107-114 | Non-empty chunks followed by an empty read are read back concatenated, after one read per chunk plus the empty one. |
| `ByteBuffer.ByteStream.Close` | integration/map-std/src/internal.ts:119-121 | Closing marks the handle closed. Closing it a second time is an error. |
| `JsValues.Get` | integration/map-std/src/internal.ts:134-135 | A property read gives `undefined` unless the value is an object that has that property. |
| `JsValues.LookupFirst` | integration/map-std/src/internal.ts:134-135 | A present key reads as the value of its first entry. |
| `JsValues.LookupAbsent` | integration/map-std/src/internal.ts:134-135 | A key no entry has reads as `undefined`. |
| `JsValues.Entries` | integration/map-std/src/internal.ts:159-159 | `Object.entries` of an array pairs index numerals with elements. A non-object has no entries. |
| `JsValues.NatToStringInjective` | integration/map-std/src/internal.ts:159-159 | Distinct indices give distinct numerals, so the keys of an array never collide. |
| `MultiMap.LowerAscii` | integration/map-std/src/internal.ts:160-162 | Lowercasing maps every character on its own and keeps the length. |
| `MultiMap.LowerAsciiNoUpper` | integration/map-std/src/internal.ts:160-162 | A lowercased key has no capital letter. A key is left unchanged iff it has none. |
| `MultiMap.Present` | integration/map-std/src/internal.ts:168-168 | The filter keeps exactly the elements that are neither null nor undefined. |
| `MultiMap.PresentAppend` | integration/map-std/src/internal.ts:168-168 | Filtering distributes over concatenation, so the kept elements stay in order. |
| `MultiMap.ValuesOf` | integration/map-std/src/internal.ts:164-168 | A scalar becomes `[String(v)]`, and null or undefined becomes `[]`. An array gives one string per kept element. |
| `MultiMap.MultimapKeys` | integration/map-std/src/internal.ts:159-169 | The result's keys are exactly the (folded) keys of the entries. |
| `MultiMap.MultimapLastWins` | integration/map-std/src/internal.ts:159-169 | An entry's values stand unless a later entry folds to the same key. |
| `MultiMap.MultimapLowercase` | integration/map-std/src/internal.ts:160-162 | With lowercasing on, no key has a capital letter. |
| `MultiMap.MultimapVerbatim` | integration/map-std/src/internal.ts:159-169 | With lowercasing off, the keys are the entries' keys as written. |
| `MultiMap.MultimapExample` | integration/map-std/src/internal.ts:152-172 | `{"A": "x", "b": ["y", null, "z"]}` with lowercasing gives `{"a": ["x"], "b": ["y", "z"]}`. |
| `MultiMap.EnsureMultimap` | integration/map-std/src/internal.ts:152-172 | A non-object or null gives `{}`. Otherwise the loop builds exactly the fold over `Object.entries`. Lowercasing is off unless asked for. |
| `MapValueJson.Replacer` | integration/map-std/src/internal.ts:124-132 | A `Buffer` becomes an object with `type` "Buffer" and `data` its bytes as numbers. Every other value passes through, and no `Buffer` is left. |
| `MapValueJson.Reviver` | integration/map-std/src/internal.ts:133-142 | A value changes iff it is an object whose `type` is "Buffer" and whose `data` is an array. Such a value becomes the `Buffer` of those elements. |
| `MapValueJson.ReviverUndoesReplacer` | integration/map-std/src/internal.ts:124-142 | Buffer → tagged shape → Buffer gives the same bytes. |
| `MapValueJson.ReplacerUndoesReviver` | integration/map-std/src/internal.ts:124-142 | A tagged shape of octets with only `type` and `data` is written back exactly as it was read. |
| `MapValueJson.Stringified` | integration/map-std/src/internal.ts:124-132 | The tree `JSON.stringify` writes with the replacer holds no `Buffer`, at the root or at any depth (`NoBuffer`). |
| `MapValueJson.RevivedStringified` | integration/map-std/src/internal.ts:124-142 | Writing a whole tree with the replacer and reading it with the reviver restores it. Buffers at any depth are restored, provided no object of its own already has `type` "Buffer". |

## Left out

- `SecurityResolve.ResolveSecurity`: header names are kept as written. `HeaderName::from` lives outside these files, so any normalisation it does is not modelled.
- `serde_json` parsing and serialising of the body are the parameter `JsonCodec`, with the error text supplied by it. A panic while indexing a root that is neither object nor null is the error `IndexPanic`; the panic text itself is not modelled.
- The `__ffi.unstable` host calls (`bytes_to_utf8`, `utf8_to_bytes`, `bytes_to_base64`, `base64_to_bytes`, `stream_read`, `stream_close`) are the parameter `Ffi` or the `pending` reads of a `ByteStream`. Their error texts are stand-in constants.
- `ByteBuffer.ByteStream.ReadToEnd`: the host's chunks are a given sequence, not a live stream.
- Unicode strings are modelled as Dafny strings of scalar values. JavaScript strings with lone surrogates are not modelled.
- `MultiMap.LowerAscii`: lowercases the ASCII letters only. `toLowerCase` also folds non-ASCII letters.
- `JsValues.ToJsString`: numbers are integers. Fractional numbers, `NaN` and infinities, and their decimal forms, are not modelled.
- `MultiMap.EnsureMultimap`: requires that no `Buffer` is reached, at the top or inside a value. `Buffer` comes from `node_compat`, which is not part of this model, so its `Object.entries` and `toString` are unknown.
- `MultiMap.EnsureMultimap`: the key `__proto__` (or `__PROTO__` when lowercasing) is not special. In the source, assigning it on the `{}` literal calls the inherited prototype setter, so the result gets no own key for it. The model stores it as an ordinary key.
- `ByteBuffer.Bytes.Data` and `ByteBuffer.Bytes.UninitData`: these are copies of the bytes. The source returns live `subarray` views, so a write through one changes the buffer. That aliasing is not modelled.
- `ByteBuffer.Bytes.Decode`: reads the first `len` bytes of the buffer. The source slices the underlying `ArrayBuffer`, which gives the same bytes only when the view starts at offset 0. Every `Bytes` that `internal.ts` builds sits on a fresh array, so its offset is 0; the public constructor would still accept any view.
- `ByteBuffer.Bytes.WithCapacity`: the capacity is a `nat`. A negative capacity makes the source's `Uint8Array` throw a `RangeError`; that error is not modelled.
- `MapValueJson.Reviver`: `Buffer.from(array)` comes from `node_compat`, which is not part of this model. It is modelled as numbers taken modulo 256 and every other element as 0; the conversion of numeric strings and booleans is not modelled.
- `MapValueJson.Stringified`: models where the replacer and reviver apply in the value tree, not the JSON text. `toJSON` methods and the dropping of `undefined` members are not modelled.
- `Object.entries` order is given by the order of an object's `entries` list. Array holes are not modelled.
- The `unreachable!` branches of the secret classification are the precondition `SchemaValid`, which stands for the host's schema validation. `HttpScheme` and the enum `From` conversions are identities between the core's enums and the provider's, so the model has one enum for each.
- `messageExchange` and the FFI glue in `unstable.rs` marshal arguments into host calls whose code is not part of this model.
- The wasm entry points and global lock in `lib.rs`, the macro-generated messages in `perform.rs`, the test double in `mock.rs`, `app.test.ts` and `node_example.js` are not part of this model. They are plumbing, tests or entry points around the modelled core.
- Integer widths: `usize` indices and JavaScript numbers are unbounded integers. No buffer here reaches a length where wrap-around or precision loss would matter.
