# ti.superagent in Dafny

A model of the core of ti.superagent, the superagent HTTP client for
Titanium. It is built from four parts:

- **Request builder** (`src/request.js`, module `Requests`). A `Request` object collects the method, the URL, query fragments, headers, a body, form fields, credentials and flags. `end` then hands them to the platform's HTTP client.
- **Response normaliser** (`src/response.js`, module `Responses`). A `Response` object is built from what the transport reports. It derives the status flags, the media type and its parameters, and parses the body with the parser registered for the media type.
- **Form codec and default tables** (`src/globals.js`, module `Globals`). `serializeObject` and `parseString` convert between objects and `application/x-www-form-urlencoded` text. The `types`, `serialize` and `parse` tables name the codec for each MIME type.
- **Helpers** (`src/utils.js`, module `Utils`). `isObject`, the raw header-block parser `parseHeader`, and `type`/`params`, which split a media type from its parameters.

Supporting modules:

- `Js`: the JavaScript values the client handles, with `typeof`, truthiness, `String(v)` and the keys `for…in` visits.
- `Fields`: objects as property lists in insertion order, where assignment overwrites in place or appends.
- `Strings`: `indexOf`, `split`, `join`, `trim`, `toLowerCase` and `String(n)`.
- `Uri`: `encodeURIComponent` and `decodeURIComponent` over UTF-8 (RFC 3986 section 2.1, RFC 3629).
- `Base64`: base 64 as in section 4 of RFC 4648, used for Basic authentication.
- `Wrappers`: `Option` and `Result`.

The two objects the source mutates are classes:

- **`Requests.Request`.** Each method changes only the fields it names in `modifies` and states the whole new value of each. The body that `send` builds is given by the pure function `SendTo`. What `end` hands the transport is a `Dispatch` value, fixed by `BodyToSend`, `WithQuery` and `Present`.
- **`Responses.Response`.** Its properties are gathered in the ghost `View()`. `NewResponse` is proved against the pure `Normalised`, and the lemmas are stated about that function.

Loops in the source are loops in the model, each with its invariant:

- `pushEncodedKeyValuePair` and `serializeObject` (proved against `EncodedPairs` and `Serialized`);
- `parseString` (against `ParsedString`);
- `parseHeader` (against `HeaderFields`);
- `set` on an object (against `PutAll` and `Lowered`);
- the header loop of `end` (against `Present`);
- the parameter copy of `_setHeaderProperties` (against map union).

The type, serializer and parser tables are module-level mutable objects in
the source. Here they are explicit parameters, with the defaults as
constants. `JSON.stringify`, `JSON.parse` and caller-registered codecs
are fields of an `Env` value passed in.

Some behaviour is kept as the code has it, where a reader might
expect otherwise:

- On `end`, the joined query string goes through `serializeObject` again. For a string that is the identity, so the fragments are appended exactly once encoded, not twice (`WithQueryAppends`, `QueryObjectOnUrl`).
- `validatesSecureCertificate(false)` stores `false || true`, which is `true`. Certificate validation cannot be switched off (`CertificateAlwaysValidated`).
- An object sent after a string body replaces that body rather than merging into it (`SendReplaces`).

## Model

| member | source | states |
|---|---|---|
| Utils.IsObject | src/utils.js:8-10 | true exactly for arrays, plain objects and host objects; null is excluded although `typeof null` is "object" |
| Utils.ParseHeader | src/utils.js:20-39 | the map is the one the block's lines build: the piece after the last line break is dropped, and each line's lower-cased name is bound to its trimmed value, later lines overwriting earlier ones |
| Utils.SplitLinesCRLF | src/utils.js:21 | splitting on an optional CR followed by LF takes a CRLF-terminated line off without its CR |
| Utils.HeaderLinesOfBlock | src/utils.js:21-28 | a CRLF-terminated block yields exactly the lines it was made of; the final break adds no empty line |
| Utils.HeaderLineWithColon | src/utils.js:32-34 | a line with a colon maps the lower-cased text before its first colon to the trimmed text after it |
| Utils.HeaderLineWithoutColon | src/utils.js:32-34 | a line without a colon (`indexOf` is -1) maps its text minus the last character to the whole trimmed line |
| Utils.HeaderFieldsKeys | src/utils.js:30-36 | a name is in the map exactly when some line carries it |
| Utils.HeaderFieldsLast | src/utils.js:35 | the value under a name is that of the last line carrying it |
| Utils.HeaderFieldsSize | src/utils.js:28-36 | the map has at most one entry per line of the block |
| Utils.Type | src/utils.js:48-50 | without a `;` the whole string; otherwise a prefix of the text before the first `;` that stops only at the spaces in front of it and does not end in a space |
| Utils.SplitSpacedJoin | src/utils.js:49 | splitting on "spaces, separator, spaces" gives back pieces joined with the separator, each separator with its own number of spaces before and after it, provided they hold no separator and no edge space (and no inner piece is empty where the separator after it has spaces in front) |
| Utils.MediaTypeRoundTrip | src/utils.js:48-68 | for `type;name=value;…` with any spaces on either side of each `;` and of each `=`, chosen separately for every separator (`text/plain ;a=b;   c=d`), `type` gives the type back and `params` gives every parameter, the last of a repeated name winning |
| Utils.TypeExamples | test/utils.js:6-8 | `type` of "application/json; charset=utf-8" and of "application/json" is "application/json" |
| Utils.ParamsExamples | test/utils.js:13-19 | `params` of "application/json; charset=utf-8; foo  = bar" is `{charset: 'utf-8', foo: 'bar'}`, and of "application/json" is `{}` |
| Utils.ParamValueEndsAtSecondEquals | src/utils.js:61-63 | only the text between the first and second `=` is a parameter's value, whatever spaces surround them |
| Globals.PushEncodedKeyValuePair | src/globals.js:31-38 | the array grows by exactly the pairs of the value: one per element of an array, recursively, and otherwise one `encodeURIComponent(key)=encodeURIComponent(val)` |
| Globals.SerializeObject | src/globals.js:10-19 | a non-object is returned unchanged; an object becomes a string, the pairs of its properties that are neither null nor undefined, in property order, joined by `&` |
| Globals.ObjectPairsFlat | src/globals.js:13-17 | for flat values, one `key=value` pair for exactly the properties that are neither null nor undefined, in order |
| Globals.EncodedPairsArray | src/globals.js:32-36 | an array expands into one pair per element under the same key, in element order; null and undefined elements are kept |
| Globals.PresentNoNullish | src/globals.js:14 | no kept property is null or undefined |
| Globals.PresentDistinct | src/globals.js:13-14 | dropping nullish properties keeps the keys distinct |
| Globals.SerializedNonEmpty | src/globals.js:18 | an object with a property that is neither null nor undefined does not serialise to "" |
| Globals.SerializedSingle | src/globals.js:13-18 | a one-property object with a non-nullish value serialises to its one encoded pair |
| Globals.SerializedAppend | src/globals.js:13-18 | a further non-nullish property appends "&" and its pair to a non-empty serialisation |
| Globals.SerializePlainSingle | test/serialize.js:18 | a property whose name and value need no escaping gives `key=value` |
| Globals.SerializePlainPair | test/serialize.js:23 | two such properties give `k1=v1&k2=v2`, in property order, each value in its `String(v)` form |
| Globals.SerializeEscapesAmpersands | src/globals.js:13-18 | a string property with any name and value is written as the encoded name, "=", the encoded value; the result holds no "&", and "&" itself encodes as "%26" |
| Globals.SerializeAmpersandValue | test/serialize.js:24 | a value wrapped in "&"s, as in `{name: '&tj&'}`, gives `name=%26tj%26` |
| Globals.SerializeAmpersandKey | test/serialize.js:25 | a name wrapped in "&"s, as in `{'&name&': 'tj'}`, gives `%26name%26=tj` |
| Globals.ParseString | src/globals.js:76-89 | the object the `&`-separated pairs fill in turn, or the URIError that the first malformed escape raises |
| Globals.ParsedPairsAbort | src/globals.js:82-86 | once a pair fails to decode, the whole parse fails |
| Globals.ParsedPairsError | src/globals.js:85 | the only failure is the URIError |
| Globals.ParsedPairsGet | src/globals.js:85 | a key's value is that of the last pair carrying it |
| Globals.ParsedEncodedPair | src/globals.js:84-85 | a pair written by `pushEncodedKeyValuePair` decodes to its key and the string of its value |
| Globals.ParsedPlainPair | src/globals.js:84-85 | `key=value` without `=` or `%` in either part reads as that key and value |
| Globals.ParsedBarePair | src/globals.js:84-85 | a pair without `=` gets the value "undefined" (`decodeURIComponent(undefined)`) |
| Globals.ParsedTwo | src/globals.js:78-86 | two distinct-keyed pairs joined by "&" give the two-property object |
| Globals.ParsePlainPairs | test/serialize.js:32 | `k1=v1&k2=v2` gives `{k1: v1, k2: v2}` |
| Globals.ParseBareSecond | test/serialize.js:33 | `k1=v1&k2` gives `{k1: v1, k2: 'undefined'}` |
| Globals.ParsedPairsOf | src/globals.js:82-86 | parsing the pairs of an object with distinct keys gives the object back, values as strings |
| Globals.FormRoundTrip | src/globals.js:76-89 | `parseString(serializeObject(obj))` gives the non-nullish properties of a flat object with distinct keys, in order, values as strings |
| Globals.EmptyObject | src/globals.js:78-85 | `{}` serialises to "", and "" parses to one property: the empty key with value "undefined" |
| Globals.DefaultRegistries | src/globals.js:47-107 | the three form aliases name the form type; the serialize and parse tables cover the same two MIME types with the same codec, both of which are `types` values |
| Uri.DecodeEncode | src/globals.js:37 | `decodeURIComponent(encodeURIComponent(s)) == s` for every string |
| Uri.DecodePlain | src/globals.js:85 | text without `%` decodes to itself |
| Uri.EncodeAvoidsSeparators | src/globals.js:37 | an encoded component holds no `&`, `=` or `;` |
| Uri.EncodeUnreserved | src/globals.js:37 | letters, digits and `-_.!~*'()` are left as they are |
| Uri.EncodeWithAmpersand | src/globals.js:37 | "&" becomes "%26" and the unreserved text around it is kept |
| Uri.EncodeBetweenAmpersands | src/globals.js:37 | unreserved text between two "&"s is kept and both "&"s become "%26" |
| Base64.DecodeEncode | src/request.js:84 | the base 64 of the credentials decodes back to their bytes |
| Base64.EncodeLength | src/request.js:84 | the encoding has four characters per started group of three bytes |
| Strings.Split | src/globals.js:78 | a split is never empty, no piece holds the separator, and the pieces rejoined give the string |
| Strings.SplitJoin | src/globals.js:78 | splitting undoes joining when no piece holds the separator |
| Strings.Trim | src/utils.js:34 | the slice left after removing ECMAScript white space from both ends |
| Strings.LowerIsCanonical | src/request.js:46 | a lower-cased name has no upper-case ASCII letter and lowers to itself |
| Strings.IntToStringValue | src/response.js:126 | `String(n)`: a minus sign exactly for negatives, then decimal digits with no leading zero that read back as the magnitude |
| Strings.NatToStringValue | src/globals.js:13 | the decimal form reads back as the number, so array indices have distinct keys |
| Js.EnumerateDistinct | src/globals.js:13 | `for…in` over an array or a well-formed object never repeats a key |
| Fields.PutGet | src/request.js:139 | after `obj[k] = v`, `k` holds `v` and every other key keeps its value |
| Fields.PutKeys | src/request.js:47 | assignment keeps an existing key's position and puts a new key last |
| Fields.PutAllGet | src/request.js:211-213 | merging an object's properties in: its keys take its values, all others keep theirs |
| Responses.StatusClass | src/response.js:90 | the status class: the status divided by 100 and truncated toward zero, for either sign |
| Responses.ResponseHeaderFields | src/response.js:10-14 | the header holds the directly reported `content-type` (null when the transport reports none) and every other parsed field as a string |
| Responses.Response.constructor | src/response.js:4-14 | the allocation: the request, the response text and status text, and the parsed header with the directly reported `content-type` |
| Responses.Response.ToError | src/response.js:121-133 | the error carries the status, method and URL, with message "cannot METHOD URL (STATUS)" |
| Responses.Response.SetStatusProperties | src/response.js:89-113 | only the status properties change, to those of the new status for this request |
| Responses.Response.SetHeaderProperties | src/response.js:59-67 | only the media type and the parameters change, to `type` and `params` of the `content-type` entry ("" when absent) |
| Responses.CopyKeys | src/response.js:66 | copying every key of `obj` over `target` yields `target + obj` |
| Responses.NewResponse | src/response.js:4-18 | the built response with its body exactly when the parser does not throw, otherwise the parser's error |
| Responses.BuiltFields | src/response.js:4-15 | field by field: request, texts, status properties, header, media type and parameters, with no body yet |
| Responses.StatusClassFlags | src/response.js:93-100 | status and statusCode are the status; `info`, `ok`, `clientError` and `serverError` hold exactly for 1xx, 2xx, 4xx and 5xx; at most one holds |
| Responses.StatusError | src/response.js:101-103 | an error is present exactly for 4xx and 5xx, and it is `toError()` for the request |
| Responses.StatusSugarFlags | src/response.js:106-112 | each sugar flag holds for exactly its code; 202 and 204 are errorless successes, and the others are client errors carrying an error |
| Responses.HeaderGetCaseInsensitive | src/response.js:44-46 | `get` gives the same value for any spelling of a name |
| Responses.BuiltHeader | src/response.js:10-14 | `get('content-type')` is what the transport reports directly, whatever the block says; every other name reads the block's field, or undefined |
| Responses.BuiltMediaType | src/response.js:59-66 | the media type and parameters are `type` and `params` of the directly reported `content-type`, or of "" when there is none |
| Responses.BuiltMediaTypeParams | src/response.js:59-66 | a `content-type` written as a media type with parameters, with any spaces around each `;` and `=`, chosen separately for every separator, gives exactly that media type and those parameters |
| Responses.NormalisedBody | src/response.js:30-35 | the body is null for HEAD, for a media type without a parser and for empty text; otherwise it is the parser's value, and only a throwing parser fails construction |
| Responses.FormBodyRoundTrip | src/globals.js:104-107 | a form body serialised from an object is parsed back into it, values as strings |
| Responses.DefaultFormParser | src/globals.js:105 | the default parsers read a form body with `parseString` |
| Requests.Request.constructor | src/request.js:17-24 | the method and URL, with no timeout, query, headers, body, credentials or flags |
| Requests.Request.Set | src/request.js:39-49 | each pair (one for a name, one per property of an object) is assigned in order under its own name and under its lower-cased name; nothing else changes |
| Requests.LoweredGet | src/request.js:46-53 | `get(f)` gives the last value set under any spelling of `f`, and the old value when none was |
| Requests.SetThenGet | src/request.js:52-54 | after `set(f, v)`, `get(g)` is `v` when `f` and `g` differ only in case, and the old value otherwise |
| Requests.Request.Type | src/request.js:27-30 | Content-Type is set to the table's entry for a known short name, and to the name itself otherwise |
| Requests.Request.Accept | src/request.js:33-36 | Accept is set the same way |
| Requests.DefaultResolve | src/request.js:28 | with the default table "json", "form" and "urlencoded" resolve to their MIME types, and unknown names to themselves |
| Requests.Request.Query | src/request.js:56-60 | a string, or the `serializeObject` form of anything else, is appended to the query exactly when it is truthy |
| Requests.Request.Timeout | src/request.js:69-72 | the timeout is the value given |
| Requests.Request.Auth | src/request.js:75-94 | no options, or type "basic": an Authorization header `Basic base64(user:pass)`; type "auto": the credentials are stored for the transport; any other type: no change |
| Requests.Request.Attach | src/request.js:114-118 | the file is assigned under the field in the form data, which is created if absent; the filename is ignored |
| Requests.Request.Field | src/request.js:135-141 | the value is assigned under the name in the form data, a later value replacing an earlier one |
| Requests.Request.Send | src/request.js:205-232 | the body and both header maps become those `send` describes: merge, "&"-join, concatenation or replacement, and the "form"/"json" default type |
| Requests.SendKeepsContentType | src/request.js:214-231 | a Content-Type already set is never changed by `send` |
| Requests.SendObjectDefaultsToJson | src/request.js:209-231 | an object sent to any draft with no truthy Content-Type sets it, in both header maps, to the table's entry for "json", and merges into an object or array body or else replaces the body |
| Requests.SendStringDefaultsToForm | src/request.js:214-222 | a string sent to any draft with no truthy Content-Type sets it to the table's entry for "form"; the string is then "&"-joined to a truthy body when that entry is the form type, and concatenated otherwise |
| Requests.SendStringsJoined | src/request.js:217-219 | under the form type a string is "&"-joined to a truthy body, becomes the body otherwise, and the headers are unchanged |
| Requests.SendTwoStrings | src/request.js:195-199 | two strings sent to a fresh request with the default table set the form type as the only header and are joined with "&" |
| Requests.SendStringsConcatenated | src/request.js:220-222 | under any other type strings are concatenated as they are |
| Requests.SendMerges | src/request.js:210-213 | an object sent onto an object body merges: its keys take its values, the others keep theirs |
| Requests.SendMergesArray | src/request.js:210-213 | an array sent onto an array body is assigned index by index: the new elements, then the old ones past them |
| Requests.AssignElementsFront | src/request.js:211-213 | assigning an array's elements into another array at indices 0, 1, … overwrites its front and appends what runs past its end |
| Requests.SendReplaces | src/request.js:223-225 | anything else replaces the body, including an object sent after a string |
| Requests.Request.WithCredentials | src/request.js:244-247 | the CORS credentials flag is set |
| Requests.Request.ValidatesSecureCertificate | src/request.js:257-260 | the stored flag is the value when truthy, and `true` otherwise |
| Requests.CertificateAlwaysValidated | src/request.js:257-260 | the stored flag is always truthy, so `false` is stored as `true` |
| Requests.IsJSON | src/request.js:13-15 | true exactly when "/json" or "+json" occurs followed by the end of the string or a non-word character |
| Requests.IsJSONAccepts | src/request.js:13-15 | the JSON type, the JSON type with parameters and a `+json` suffix are JSON |
| Requests.IsJSONRejectsJsonp | src/request.js:13-15 | "application/jsonp" is not JSON (the `\b` boundary) |
| Requests.IsJSONRejectsHtml | src/request.js:13-15 | "text/html" is not JSON |
| Requests.Request.End | src/request.js:270-373 | the URL gains the query; the transport gets the method and URL, the timeout when truthy, the credentials when both are truthy, the certificate flag when truthy, the CORS flag, the non-null headers and the body |
| Requests.Request.AppendQuery | src/request.js:334-338 | the joined fragments, when non-empty, are appended after "&" if the URL has a "?" and after "?" otherwise |
| Requests.WithQuery | src/request.js:335-337 | an empty query leaves the URL unchanged; otherwise URL, separator, query |
| Requests.WithQueryAppends | src/request.js:334-338 | the URL is kept as a prefix, the query follows unchanged after one separator, and the result has a "?" |
| Requests.QueryObjectOnUrl | src/request.js:56-60 | a query object on a URL without "?" adds "?" and the form encoding of its non-nullish properties, encoded once |
| Requests.SerializedBody | src/request.js:355-371 | the body `end` sends: the payload through the chosen serializer when the method and payload call for it; JSON of undefined is undefined, and undefined is sent as null |
| Requests.UndefinedSentAsNull | src/request.js:361-371 | the transport never receives undefined; an undefined payload is sent as null unless a caller's own serializer makes something of it |
| Requests.BodyUnserialized | src/request.js:356 | GET and HEAD bodies, strings and host objects are sent unchanged (undefined as null) |
| Requests.JsonSerializerChoice | src/request.js:358-361 | a Content-Type whose part before ";" is the JSON type sends `JSON.stringify` of the body |
| Requests.FormSerializerChoice | src/request.js:358-361 | a Content-Type whose part before ";" is the form type sends the form encoding |
| Requests.JsonLikeSerializerChoice | src/request.js:359-360 | an unregistered type falls back to the JSON serializer exactly when it looks like JSON |
| Requests.OwnSerializerFirst | src/request.js:359 | the request's own serializer wins over the table |
| Requests.PostObjectAsJson | src/request.js:178-181 | posting an object to a fresh request sends its `JSON.stringify`, with the JSON Content-Type as the only header |
| Requests.SendableHeaders | src/request.js:364-368 | the headers set on the transport: every field whose value is neither null nor undefined, in order |
| Requests.SentHeaders | src/request.js:364-368 | a header is sent exactly when set to a value that is neither null nor undefined, with its last value |
| Requests.Request.OnLoad | src/request.js:278-310 | the callback's error and response: a parse error (no response), no error for 2xx, and otherwise an HTTP error with the status text or a stock message |
| Requests.Request.OnError | src/request.js:312-327 | the transport's error with the response, or the parse error when the response cannot be built |
| Requests.LoadOutcome | src/request.js:293-309 | success exactly when the response is built and `ok`; an HTTP error carries the status and a non-empty message; 4xx/5xx also carry the response's own error |
| Requests.ParseFailureReported | src/request.js:283-291 | an unparsable response gives the same error on both paths, with the raw text exactly when there is some and the status exactly when it is non-zero |
| Requests.HeadNeverParseFails | src/response.js:16-17 | a HEAD response always builds, with a null body |
| Requests.CreatedJson | src/request.js:298-301 | a 201 with a JSON body the parser reads: no error, `ok` set, and the parsed value as the body |

## Left out

- The transport (`Ti.Network.createHTTPClient`) is not modelled. `End` returns what would be set on it and sent (`Dispatch`). `OnLoad` and `OnError` take what it reports (`Transport`) and return what the callback would receive instead of calling `fn`.
- `src/index.js`, the `request.get`/`post`/… factory functions, is not part of this model.
- Timing, aborting and concurrency of requests are not modelled.
- `JSON.stringify`, `JSON.parse` and codecs registered by callers are foreign functions, supplied through `Env`. Only their results are modelled.
- `_isHost` is represented by the `Host` value kind (File, Blob, FormData). Host objects are opaque and have no enumerable properties.
- Numbers are integers: floating point, NaN and their string forms are not modelled.
- `Strings.Lower`: lowers ASCII letters only, where `toLowerCase` also folds other scripts.
- `Ti.Utils.base64encode` is modelled as base 64 of the UTF-8 bytes of `user:pass`.
- Dafny strings hold Unicode scalar values. A lone surrogate, for which `encodeURIComponent` throws, cannot occur.
- `Responses.NewResponse`: the `xhr.responseData` fallback for an empty response text is not modelled. An empty text gives a null body.
- `Responses.Response.SetHeaderProperties`: the source copies the content-type parameters onto the response object itself, so a parameter named like another property (`status`, say) would overwrite it. The model keeps them in a separate `params` map.
- `Responses.Response`: `header` and `headers` are one map, and `req`/`xhr` are reduced to the request's method and URL.
- `Responses.StatusClass`: the `| 0` conversion to a 32-bit integer is exact only for statuses below 2^31 × 100. Larger ones are not modelled.
- `Requests.Request.OnLoad`: the HTTP error's `original` (always undefined at that point) and `response` fields are not kept. The response is returned beside the error.
- `Requests.Request.Set`: a field that is neither a string nor an object makes `toLowerCase` throw in the source. The model requires one of the two.
- `Requests.SerializerFor`: a truthy Content-Type that is not a string makes `split` throw in the source. The model splits its string form.
- `Requests.Request`: `_parser` is never set by any operation modelled here. It is a field that starts as none.
- Objects and the `types`, `serialize` and `parse` tables are modelled as maps of their own properties. Members inherited from `Object.prototype` are not: in the source `type('constructor')` finds the `Object` function in `types`, and a response typed `toString` finds a function in `parse`; here both lookups miss. The special `__proto__` key is not modelled either: the source ignores a string assigned to `obj['__proto__']` in `parseString`, `parseHeader` and `params`, while the model stores it as an ordinary key.
- `Fields.Put`: JavaScript enumerates keys that are array indices ("0", "42") before all other keys, in ascending numeric order. The model keeps every key in insertion order, so an object with such keys is serialised, merged and sent as headers in a different order (`send({a: 1}).send({"2": "x"})` under the form type gives `2=x&a=1` in the source and `a=1&2=x` here).
- `Fields.PutKeys`: states that a new key goes last, which holds in JavaScript only for keys that are not array indices (see `Fields.Put`).
- `Requests.Request.Send`: the source keeps the caller's own object as the body (`this._data = data`). A later merge then writes into that object, and a change the caller makes to it before `end` changes what is sent. The model works on values and has no such sharing.
- `Requests.Merged`: a plain object merged into an array body, and anything merged into a host object body, leave the body unchanged here, because a `Value` array or host object cannot carry extra properties. Merges into object bodies and array-into-array merges are modelled exactly.
