# GraphQL response envelope

This is a model of Dgraph's GraphQL response envelope (`dgraph/cmd/graphql/schema/response.go`).
A `Response` holds a list of GraphQL errors and a `Data` blob that is already
serialised. It is written to an `io.Writer` as compact JSON. Section 7.1
("Response Format") of the GraphQL specification of June 2018 describes that JSON.
Each member is left out when it is empty:

- `errors` is dropped when the list is empty;
- `data` is dropped when `Data` has no bytes;
- `errors` comes before `data`.

`WithNullData` makes `data` present and `null`. That distinction, absent versus null,
is the one the GraphQL specification insists on. `WriteTo`
renders the response. If that fails, it swaps in a fixed error-only response whose
data is null. It then makes exactly one write and hands back what the writer
reported.

Modules:

- `Go` (`go.dfy`): the Go values involved: `byte`, 64-bit `int` and `int64`,
  `error`, and Option/Result.
- `Json` (`json.dfy`): the part of `encoding/json` the envelope relies on:
  - a recogniser for the JSON grammar (RFC 8259), `ValidJson`, which decides whether a
    `json.RawMessage` may be embedded;
  - the string escaping `json.Marshal` applies, with HTML escaping on;
  - a decoder that reads such a string back.
- `Io` (`io.dfy`): an `io.Writer` as a class that records every call of
  `Write`, the bytes it accepted, and what it reported. It fails with
  a configured error, or reports a short write when it runs out of room.
- `Schema` (`response.dfy`): the envelope itself:
  - `Envelope` is the value of a `Response`;
  - `Marshal` is `json.Marshal` of a `Response`;
  - `ParseEnvelope` reads a rendering back;
  - `Rendered` gives the bytes `WriteTo` chooses;
  - the `Response` class has `ErrorResponsef`, `WithNullData` and `WriteTo`.

The partner of `Marshal` is `ParseEnvelope`. Every rendering reads back as
the same errors and the same data: `MarshalRoundTrip`. So absent data,
null data and any other data stay distinguishable on the wire.
The partner of `WriteTo` is the writer's own record. `WriteTo` ends in
exactly one `Write` of `Rendered(Value())` and returns that call's count and
error. What `Rendered` yields is characterised by `RenderedReadsBack` and `FallbackBytes`.
Every rendering is also one JSON text under the recogniser in `Json` (`MarshalValid`).
So what `WriteTo` sends is always a well-formed JSON document.

## Model

| member | source | states |
|---|---|---|
| Schema.Marshal | dgraph/cmd/graphql/schema/response.go:31-37 | rendering fails exactly when `Data` is non-empty and not valid JSON, and the error is then a marshaler error for `json.RawMessage` |
| Schema.MemberLayout | dgraph/cmd/graphql/schema/response.go:35-36 | the four shapes of a rendering: `{}`, `{"data":D}`, `{"errors":[…]}`, `{"errors":[…],"data":D}` — `errors` present iff the list is non-empty, `data` present iff it has bytes, `errors` first, `D` verbatim |
| Schema.MarshalRoundTrip | dgraph/cmd/graphql/schema/response.go:31-37 | every successful rendering reads back as the same error list and the same data bytes |
| Schema.RenderingRoundTrip | dgraph/cmd/graphql/schema/response.go:31-37 | the object `{` members `}` reads back as the envelope it was built from |
| Schema.FieldsRoundTrip | dgraph/cmd/graphql/schema/response.go:35-36 | the members, with either of them omitted, read back as the envelope: a missing `errors` as the empty list, a missing `data` as no bytes |
| Schema.ListRoundTrip | dgraph/cmd/graphql/schema/response.go:35 | an error list renders as a JSON array that reads back as the same list, empty or not, whatever follows it |
| Schema.ItemsRoundTrip | dgraph/cmd/graphql/schema/response.go:35 | comma-separated error records up to `]` read back as the same non-empty list (by induction on the list) |
| Schema.ErrorRoundTrip | dgraph/cmd/graphql/schema/response.go:35 | one error record `{"message":…}` reads back as the same message |
| Schema.DataRoundTrip | dgraph/cmd/graphql/schema/response.go:36 | a non-empty `data` member reads back as exactly its bytes and cannot be mistaken for an `errors` member |
| Schema.SingleErrorBytes | dgraph/cmd/graphql/schema/response.go:41-45 | a response with one error and no data renders as `{"errors":[{"message":` + the quoted message + `}]}`, with no `data` key |
| Schema.NullDataLast | dgraph/cmd/graphql/schema/response.go:47-50 | with data set to `null` the response always renders, and the rendering ends in `"data":null}` |
| Schema.NullVersusAbsent | dgraph/cmd/graphql/schema/response.go:47-51 | for any error list, absent data and null data both render; the first reads back as absent and the second as null |
| Schema.FallbackRenders | dgraph/cmd/graphql/schema/response.go:60-67 | the fallback response (one error with the fixed message, data null) always renders, so `WriteTo` always has bytes to write |
| Schema.Rendered | dgraph/cmd/graphql/schema/response.go:56-67 | the bytes `WriteTo` chooses, when there are any, are one JSON text and read back as the response when it renders and as the fallback response when it does not |
| Schema.RenderedReadsBack | dgraph/cmd/graphql/schema/response.go:56-68 | there are always bytes to write; they are one JSON text and read back as the response itself when it renders, and as the fallback response otherwise |
| Schema.MarshalValid | dgraph/cmd/graphql/schema/response.go:56 | every successful rendering is one JSON text, so what `WriteTo` writes is valid JSON |
| Schema.RenderingValid | dgraph/cmd/graphql/schema/response.go:35-36 | `{` members `}` is one JSON text for every error list and any `data` that is empty or valid JSON |
| Schema.ListIsValue | dgraph/cmd/graphql/schema/response.go:35 | an error list renders as one JSON array, empty or not, whatever follows it |
| Schema.ErrorIsValue | dgraph/cmd/graphql/schema/response.go:35 | one error record renders as one JSON object, whatever follows it |
| Schema.Fields | dgraph/cmd/graphql/schema/response.go:35-36 | the members are empty exactly when the error list is empty and `Data` has no bytes; otherwise they start with the `errors` key `"errors":` when the list is non-empty, and with the `data` key `"data":` when it is empty |
| Schema.DataMember | dgraph/cmd/graphql/schema/response.go:36 | `data` is omitted exactly when `Data` has no bytes; otherwise it is `"data":` followed by those bytes verbatim |
| Schema.EncodeList | dgraph/cmd/graphql/schema/response.go:35 | an error list is written between `[` and `]`, and is `[]` exactly when it is empty |
| Schema.EncodeError | dgraph/cmd/graphql/schema/response.go:35 | one `gqlerror.Error` is written as an object, starting with `{`; `ErrorRoundTrip` reads it back as the same message and `ErrorIsValue` shows it is one JSON value |
| Schema.EncodeItems | dgraph/cmd/graphql/schema/response.go:35 | the comma-separated records of a non-empty list start with a record's `{`; `ItemsRoundTrip` reads them back as the same list and `ItemsAreElements` shows they are the elements of one JSON array |
| Schema.FallbackBytes | dgraph/cmd/graphql/schema/response.go:57-64 | when the response does not render, the bytes chosen are exactly `{"errors":[{"message":` + the quoted fallback message + `}],"data":null}`, independent of the response's contents |
| Schema.FallbackQuoted | dgraph/cmd/graphql/schema/response.go:60 | the quoted fallback message is its own ASCII bytes `Failed to write a valid GraphQL JSON response` between two quotes, nothing escaped, so the fallback bytes are exactly `{"errors":[{"message":"Failed to write a valid GraphQL JSON response"}],"data":null}` |
| Schema.Response.constructor | dgraph/cmd/graphql/schema/response.go:42-44 | a new response, as the `&Response{…}` literal builds it, holds exactly the given errors and data |
| Schema.Response.ErrorResponsef | dgraph/cmd/graphql/schema/response.go:41-45 | a fresh response with exactly one error carrying the given message, and no data |
| Schema.Response.WithNullData | dgraph/cmd/graphql/schema/response.go:49-51 | data becomes the bytes `null` whatever it was; the errors are unchanged |
| Schema.Response.WriteTo | dgraph/cmd/graphql/schema/response.go:55-72 | the receiver is unchanged. The writer sees exactly one `Write`, of the response's own rendering if it renders and of the fallback's otherwise. The count and error returned are that call's, widened to 64 bits, and equal what the writer's `Reply` gives for those bytes. If neither renders, nothing is written and the result is 0 with a wrapped error |
| Io.Writer.Reply | dgraph/cmd/graphql/schema/response.go:70 | what a write reports obeys the `io.Writer` contract: `0 <= n <= len(p)`, and an error whenever `n < len(p)` |
| Io.Writer.Write | dgraph/cmd/graphql/schema/response.go:70 | one call is appended to the log; the first `n` bytes of `p` are appended to what was sent; the room shrinks by `n` |
| Json.NullIsValid | dgraph/cmd/graphql/schema/response.go:50 | the bytes `null` are valid JSON, so a `json.RawMessage` holding them is accepted |
| Json.UnquoteQuote | dgraph/cmd/graphql/schema/response.go:56 | a Go string written as a JSON string reads back as the same string, whatever follows it |
| Json.EscapeRoundTrip | dgraph/cmd/graphql/schema/response.go:56 | the escaped characters of a string, followed by the closing quote, decode back to the string (by induction on the string) |
| Json.EscapeCharRoundTrip | dgraph/cmd/graphql/schema/response.go:56 | every character's escape decodes back to it and never starts with an unescaped quote |
| Json.Utf8RoundTrip | dgraph/cmd/graphql/schema/response.go:56 | UTF-8 decoding undoes UTF-8 encoding for every non-control scalar value |
| Json.Utf8Canonical | dgraph/cmd/graphql/schema/response.go:56 | whatever the decoder accepts is exactly the shortest UTF-8 encoding of the character it yields, so overlong and surrogate forms are refused |
| Json.EscapeChar | dgraph/cmd/graphql/schema/response.go:56 | every character's escape starts with a byte of 0x20 or more that is not a quote, so the string grammar reads it neither as a control character nor as the closing quote; printable ASCII other than `"`, `\`, `<`, `>` and `&` is written as itself |
| Json.Escape | dgraph/cmd/graphql/schema/response.go:56 | a string's escaped characters, at least one byte for each character; `EscapeRoundTrip` decodes them back to the string, `EscapeTail` reads them as the body of a JSON string, and `EscapeAppend` shows the escape of a concatenation is the concatenation of the escapes |
| Json.Utf8 | dgraph/cmd/graphql/schema/response.go:56 | one to four bytes per character, the first of them 0x20 or more for every character from U+0020 up; `Utf8RoundTrip` and `Utf8Canonical` show these are exactly the UTF-8 encodings the decoder accepts |
| Json.EscapeVerbatim | dgraph/cmd/graphql/schema/response.go:56 | a string of printable ASCII with none of `"`, `\`, `<`, `>`, `&` is written as its own bytes |
| Json.Quote | dgraph/cmd/graphql/schema/response.go:56 | a JSON string starts and ends with a quote |
| Json.QuoteIsValue | dgraph/cmd/graphql/schema/response.go:56 | the JSON grammar reads a quoted Go string as exactly one string value, whatever follows it |
| Json.ValidJson | dgraph/cmd/graphql/schema/response.go:36 | a JSON text, the check made of a `json.RawMessage`, holds at least one non-blank byte |
| Json.ValueAppend | dgraph/cmd/graphql/schema/response.go:36 | a value is recognised the same way whatever follows it, provided what follows cannot extend a number that ends the input |
| Json.Embedded | dgraph/cmd/graphql/schema/response.go:36 | a JSON text followed by a non-blank byte that cannot continue a number, such as `}`, is read as one value and its trailing whitespace, so raw `data` bytes stay one member |

## Left out

- The `glog.Errorf` diagnostic at response.go:61 is a logging side effect that changes no result, so it is not modelled.
- Schema.Response.ErrorResponsef: takes its message already formatted. The Sprintf step of `gqlerror.Errorf` is not modelled. `WriteTo`'s fallback message has no formatting verbs, so it reaches the error unchanged either way.
- Schema.GqlError: a `gqlerror.Error` is reduced to its message. Its locations, path and extensions, which are omitted when empty, are not modelled. This also removes a second way `json.Marshal` of a `Response` can fail: a path or extensions value that `encoding/json` cannot encode, such as a NaN float or a channel, makes it fail, and `WriteTo` then falls back. `Marshal` fails exactly when `data` is present and invalid, but only for the modelled envelope.
- Schema.Marshal: embeds `Data` verbatim. `encoding/json` also compacts a `json.RawMessage`, removing insignificant whitespace; that is not modelled. Nor is the HTML escaping it then applies inside the raw bytes.
- Schema.Marshal: emits the message as a Unicode string. Go strings holding invalid UTF-8 are not modelled. Go 1.13 writes each invalid byte as the six ASCII bytes `\ufffd`, not as the raw bytes of U+FFFD.
- Schema.Response.WriteTo: the text that `errors.Wrap` produces is not modelled. The error is a `Wrapped` value carrying the context string and the cause.
- Schema.Response.WriteTo: the branch where even the fallback fails to render is kept, as the source has it, but `FallbackRenders` proves it is never taken.
- Nil entries in the error list are not modelled.
- Json: follows `encoding/json` as released in 2019 (Go 1.13). Go 1.22 and later write U+0008 and U+000C as `\b` and `\f` rather than `\u0008` and `\u000c`. Later releases refuse to validate values nested more than 10000 deep, where `Marshal` would then fail and `WriteTo` fall back. Neither later behaviour is modelled.
- Schema.Response: is never nil in the model. Go lets `WriteTo` run on a nil `*Response`: `json.Marshal` then writes the four bytes `null`, which is not a GraphQL response. `WithNullData` on a nil receiver panics. A Dafny class reference of non-null type can express neither.
- Io.Writer: stands in for an arbitrary `io.Writer`. Real I/O, blocking, and concurrent use of one Response or one writer are not modelled.
- Writes are bounded by `room`, return a count no larger than their input, and carry a configured fault. Other writer behaviour, such as a writer violating the `io.Writer` contract, is not modelled.
