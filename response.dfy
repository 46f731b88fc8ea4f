/** The GraphQL response envelope of dgraph/cmd/graphql/schema/response.go:
    an error list and an already-serialised `data` blob, rendered to JSON as
    section 7.1 ("Response Format") of the GraphQL specification of June 2018
    lays out, with a fixed error-only fallback when rendering fails. */
module Schema {
  import opened Go
  import opened Json
  import opened Io

  /** A GraphQL error record (gqlerror.Error), reduced to its message. */
  datatype GqlError = GqlError(message: string)

  /** The value of a Response: the `Errors` list and the raw `Data` bytes.
      An empty `data` is absent; `Null` is present-and-null. */
  datatype Envelope = Envelope(errors: seq<GqlError>, data: seq<byte>)

  /** The message of the fallback response that WriteTo substitutes. */
  // (written as two literals, each short enough for its bytes to be checked ASCII)
  const FallbackMessage: string := "Failed to write a valid " + "GraphQL JSON response"

  /** The fallback response: that one error and `data` set to null. */
  const Fallback: Envelope := Envelope([GqlError(FallbackMessage)], Null)

  // ---------------------------------------------------------------------
  // json.Marshal of a Response
  // ---------------------------------------------------------------------

  const ErrorsKey: seq<byte> := Ascii("\"errors\":")
  const DataKey: seq<byte> := Ascii("\"data\":")
  const MessageKey: seq<byte> := Ascii("{\"message\":")
  const OpenBrace: seq<byte> := [Byte('{')]
  const CloseBrace: seq<byte> := [Byte('}')]
  const OpenBracket: seq<byte> := [Byte('[')]
  const CloseBracket: seq<byte> := [Byte(']')]
  const Comma: seq<byte> := [Byte(',')]

  /** One gqlerror.Error: `{"message":…}`. */
  function EncodeError(e: GqlError): (r: seq<byte>)
    ensures r != [] && r[0] == Byte('{')
  {
    MessageKey + (Quote(e.message) + CloseBrace)
  }

  /** The encoded errors of a non-empty list, separated by commas. */
  function EncodeItems(errs: seq<GqlError>): (r: seq<byte>)
    requires errs != []
    ensures r != [] && r[0] == Byte('{')
  {
    if |errs| == 1 then EncodeError(errs[0])
    else EncodeError(errs[0]) + (Comma + EncodeItems(errs[1..]))
  }

  /** A gqlerror.List as a JSON array. */
  function EncodeList(errs: seq<GqlError>): (r: seq<byte>)
    ensures |r| >= 2 && r[0] == Byte('[') && r[|r| - 1] == Byte(']')
    ensures |r| == 2 <==> errs == []
  {
    OpenBracket + ((if errs == [] then [] else EncodeItems(errs)) + CloseBracket)
  }

  /** The `data` member: left out when there are no bytes (`omitempty` on a
      json.RawMessage), otherwise the key and the raw bytes as they are. */
  function DataMember(data: seq<byte>): (r: seq<byte>)
    ensures r == [] <==> data == []
    ensures data != [] ==> StartsWith(r, DataKey) && r[|DataKey|..] == data
  {
    if data == [] then [] else DataKey + data
  }

  /** The members of the object in declaration order: `errors`, left out
      when the list is empty (`omitempty`), then `data`, with a comma
      between the two when both are there. */
  function Fields(e: Envelope): (r: seq<byte>)
    ensures r == [] <==> e.errors == [] && e.data == []
    ensures r != [] ==> r[0] == Byte('"')
    ensures r != [] ==> StartsWith(r, if e.errors == [] then DataKey else ErrorsKey)
  {
    if e.errors == [] then DataMember(e.data)
    else ErrorsKey + (EncodeList(e.errors) + (if e.data == [] then [] else Comma + DataMember(e.data)))
  }

  /** json.Marshal of a Response, as far as an Envelope holds it. It fails
      exactly when `data` is present and is not valid JSON, the check
      encoding/json makes of the bytes a json.RawMessage returns. */
  function Marshal(e: Envelope): (r: Result<seq<byte>>)
    ensures r.Success? <==> e.data == [] || ValidJson(e.data)
    ensures r.Failure? ==> r.error == MarshalerError("json.RawMessage")
  {
    if e.data != [] && !ValidJson(e.data) then Failure(MarshalerError("json.RawMessage"))
    else Success(OpenBrace + (Fields(e) + CloseBrace))
  }

  // Flatten only splits a sequence-associativity step into a proof of its own.
  lemma Flatten(a: seq<byte>, b: seq<byte>, c: seq<byte>, d: seq<byte>, f: seq<byte>, g: seq<byte>, h: seq<byte>)
    ensures a + ((b + (c + (d + (f + g)))) + h) == a + b + c + d + f + g + h
  {
  }

  // Flatten4 likewise only splits a sequence-associativity step.
  lemma Flatten4(a: seq<byte>, b: seq<byte>, c: seq<byte>, d: seq<byte>)
    ensures a + ((b + c) + d) == a + b + c + d
  {
  }

  /** Fields of each shape, laid out one member after the other. */
  lemma FieldsLayout(e: Envelope)
    ensures var r := OpenBrace + (Fields(e) + CloseBrace);
      && (e.errors == [] && e.data == [] ==> r == OpenBrace + CloseBrace)
      && (e.errors == [] && e.data != [] ==> r == OpenBrace + DataKey + e.data + CloseBrace)
      && (e.errors != [] && e.data == [] ==> r == OpenBrace + ErrorsKey + EncodeList(e.errors) + CloseBrace)
      && (e.errors != [] && e.data != [] ==>
            r == OpenBrace + ErrorsKey + EncodeList(e.errors) + Comma + DataKey + e.data + CloseBrace)
  {
    if e.errors == [] && e.data != [] {
      assert Fields(e) == DataKey + e.data;
      Flatten4(OpenBrace, DataKey, e.data, CloseBrace);
    } else if e.errors != [] && e.data == [] {
      assert Fields(e) == ErrorsKey + EncodeList(e.errors);
      Flatten4(OpenBrace, ErrorsKey, EncodeList(e.errors), CloseBrace);
    } else if e.errors != [] {
      assert Fields(e) == ErrorsKey + (EncodeList(e.errors) + (Comma + (DataKey + e.data)));
      Flatten(OpenBrace, ErrorsKey, EncodeList(e.errors), Comma, DataKey, e.data, CloseBrace);
    }
  }

  /** The four shapes of a rendered response: `errors` is there exactly
      when the list is not empty, `data` exactly when it has bytes, and
      `errors` comes first. */
  lemma MemberLayout(e: Envelope)
    requires Marshal(e).Success?
    ensures e.errors == [] && e.data == [] ==>
              Marshal(e).value == OpenBrace + CloseBrace
    ensures e.errors == [] && e.data != [] ==>
              Marshal(e).value == OpenBrace + DataKey + e.data + CloseBrace
    ensures e.errors != [] && e.data == [] ==>
              Marshal(e).value == OpenBrace + ErrorsKey + EncodeList(e.errors) + CloseBrace
    ensures e.errors != [] && e.data != [] ==>
              Marshal(e).value == OpenBrace + ErrorsKey + EncodeList(e.errors) + Comma + DataKey + e.data + CloseBrace
  {
    FieldsLayout(e);
  }

  // ---------------------------------------------------------------------
  // Reading a rendered response back
  // ---------------------------------------------------------------------

  /** One error record `{"message":…}` from the front of `s`. */
  function DecodeError(s: seq<byte>): (r: Option<(GqlError, seq<byte>)>)
    ensures r.Some? ==> |r.value.1| < |s|
  {
    if !StartsWith(s, MessageKey) then None
    else match Unquote(s[|MessageKey|..])
      case None => None
      case Some((m, rest)) =>
        if rest != [] && rest[0] == Byte('}') then Some((GqlError(m), rest[1..])) else None
  }

  /** Comma-separated error records up to and including the closing `]`. */
  function DecodeItems(s: seq<byte>): (r: Option<(seq<GqlError>, seq<byte>)>)
    ensures r.Some? ==> |r.value.1| < |s|
    decreases |s|
  {
    match DecodeError(s)
    case None => None
    case Some((e, rest)) =>
      if rest != [] && rest[0] == Byte(']') then Some(([e], rest[1..]))
      else if rest != [] && rest[0] == Byte(',') then
        match DecodeItems(rest[1..])
        case None => None
        case Some((es, after)) => Some(([e] + es, after))
      else None
  }

  /** An array of error records from the front of `s`. */
  function DecodeList(s: seq<byte>): (r: Option<(seq<GqlError>, seq<byte>)>)
    ensures r.Some? ==> |r.value.1| < |s|
  {
    if s == [] || s[0] != Byte('[') then None
    else if |s| >= 2 && s[1] == Byte(']') then Some(([], s[2..]))
    else DecodeItems(s[1..])
  }

  /** A `data` member: its key and everything after it, which must not be
      empty. */
  function ParseData(s: seq<byte>): Option<seq<byte>> {
    if StartsWith(s, DataKey) && |s| > |DataKey| then Some(s[|DataKey|..]) else None
  }

  /** The members of an object, as Fields lays them out. A missing
      `errors` member reads as the empty list and a missing `data` member as
      absent data. */
  function ParseFields(body: seq<byte>): Option<Envelope> {
    if body == [] then Some(Envelope([], []))
    else if StartsWith(body, ErrorsKey) then
      match DecodeList(body[|ErrorsKey|..])
      case None => None
      case Some((errs, rest)) =>
        if rest == [] then Some(Envelope(errs, []))
        else if rest[0] != Byte(',') then None
        else match ParseData(rest[1..])
          case None => None
          case Some(data) => Some(Envelope(errs, data))
    else match ParseData(body)
      case None => None
      case Some(data) => Some(Envelope([], data))
  }

  /** Reads a rendered response back: an object `{…}` whose members are
      as Fields lays them out. */
  function ParseEnvelope(b: seq<byte>): Option<Envelope> {
    if |b| < 2 || b[0] != Byte('{') || b[|b| - 1] != Byte('}') then None
    else ParseFields(b[1..|b| - 1])
  }

  // Regroup only splits a sequence-associativity step into a proof of its own.

  lemma Regroup(a: seq<byte>, b: seq<byte>, c: seq<byte>, d: seq<byte>)
    ensures (a + (b + c)) + d == a + (b + (c + d))
  {
  }

  lemma ErrorRoundTrip(e: GqlError, t: seq<byte>)
    ensures DecodeError(EncodeError(e) + t) == Some((e, t))
  {
    var s := EncodeError(e) + t;
    assert s == MessageKey + (Quote(e.message) + (CloseBrace + t));
    assert s[|MessageKey|..] == Quote(e.message) + (CloseBrace + t);
    UnquoteQuote(e.message, CloseBrace + t);
    assert (CloseBrace + t)[1..] == t;
  }

  /** Decoding a list goes on after an error record that decodes. */
  lemma DecodeItemsAfter(s: seq<byte>, e: GqlError, rest: seq<byte>)
    requires DecodeError(s) == Some((e, rest))
    ensures rest != [] && rest[0] == Byte(']') ==> DecodeItems(s) == Some(([e], rest[1..]))
    ensures rest != [] && rest[0] == Byte(',') && DecodeItems(rest[1..]).Some? ==>
              DecodeItems(s) == Some(([e] + DecodeItems(rest[1..]).value.0, DecodeItems(rest[1..]).value.1))
  {
  }

  lemma {:induction false} ItemsRoundTrip(errs: seq<GqlError>, t: seq<byte>)
    requires errs != []
    ensures DecodeItems(EncodeItems(errs) + (CloseBracket + t)) == Some((errs, t))
  {
    if |errs| == 1 {
      LastItem(errs[0], t);
      assert [errs[0]] == errs;
    } else {
      ItemsRoundTrip(errs[1..], t);
      NextItem(errs, t);
      assert [errs[0]] + errs[1..] == errs;
    }
  }

  /** The last record of a list, then its closing bracket. */
  lemma LastItem(e: GqlError, t: seq<byte>)
    ensures DecodeItems(EncodeItems([e]) + (CloseBracket + t)) == Some(([e], t))
  {
    var s := EncodeItems([e]) + (CloseBracket + t);
    var rest := CloseBracket + t;
    ErrorRoundTrip(e, rest);
    DecodeItemsAfter(s, e, rest);
    assert rest[1..] == t;
  }

  /** One record, a comma, then records that read back as the rest of the list. */
  lemma NextItem(errs: seq<GqlError>, t: seq<byte>)
    requires |errs| > 1
    requires DecodeItems(EncodeItems(errs[1..]) + (CloseBracket + t)) == Some((errs[1..], t))
    ensures DecodeItems(EncodeItems(errs) + (CloseBracket + t)) == Some(([errs[0]] + errs[1..], t))
  {
    var s := EncodeItems(errs) + (CloseBracket + t);
    var more := EncodeItems(errs[1..]) + (CloseBracket + t);
    var rest := Comma + more;
    Regroup(EncodeError(errs[0]), Comma, EncodeItems(errs[1..]), CloseBracket + t);
    ErrorRoundTrip(errs[0], rest);
    assert rest[1..] == more;
    DecodeItemsAfter(s, errs[0], rest);
  }

  lemma ListRoundTrip(errs: seq<GqlError>, t: seq<byte>)
    ensures DecodeList(EncodeList(errs) + t) == Some((errs, t))
  {
    var s := EncodeList(errs) + t;
    if errs == [] {
      assert s == OpenBracket + CloseBracket + t;
      assert s[2..] == t;
    } else {
      var items := EncodeItems(errs) + (CloseBracket + t);
      assert s == OpenBracket + items by {
        Regroup(OpenBracket, EncodeItems(errs), CloseBracket, t);
      }
      assert s[1..] == items;
      assert items[0] == EncodeError(errs[0])[0] == Byte('{');
      ItemsRoundTrip(errs, t);
    }
  }

  lemma DataRoundTrip(data: seq<byte>)
    requires data != []
    ensures ParseData(DataMember(data)) == Some(data)
    ensures !StartsWith(DataMember(data), ErrorsKey)
  {
    var s := DataMember(data);
    assert s[..|DataKey|] == DataKey;
    assert s[|DataKey|..] == data;
    assert s[1] == Byte('d') && ErrorsKey[1] == Byte('e');
  }

  lemma FieldsRoundTrip(e: Envelope)
    ensures ParseFields(Fields(e)) == Some(e)
  {
    var body := Fields(e);
    if e.errors == [] {
      if e.data != [] {
        DataRoundTrip(e.data);
      }
    } else {
      var tail := if e.data == [] then [] else Comma + DataMember(e.data);
      assert body == ErrorsKey + (EncodeList(e.errors) + tail);
      assert body[..|ErrorsKey|] == ErrorsKey;
      assert body[|ErrorsKey|..] == EncodeList(e.errors) + tail;
      ListRoundTrip(e.errors, tail);
      if e.data != [] {
        assert tail[1..] == DataMember(e.data);
        DataRoundTrip(e.data);
      }
    }
  }

  /** An object's members, seen between its braces. */
  lemma Braced(x: seq<byte>)
    ensures var b := OpenBrace + (x + CloseBrace);
            |b| >= 2 && b[0] == Byte('{') && b[|b| - 1] == Byte('}') && b[1..|b| - 1] == x
  {
    var b := OpenBrace + (x + CloseBrace);
    assert b[1..|b| - 1] == x;
  }

  lemma RenderingRoundTrip(e: Envelope)
    ensures ParseEnvelope(OpenBrace + (Fields(e) + CloseBrace)) == Some(e)
  {
    Braced(Fields(e));
    FieldsRoundTrip(e);
  }

  /** The round trip of the wire format: whatever Marshal renders reads back
      as the same errors and the same data, so an absent `data` (no key) and
      a null one (`"data":null`) stay apart. */
  lemma MarshalRoundTrip(e: Envelope)
    requires Marshal(e).Success?
    ensures ParseEnvelope(Marshal(e).value) == Some(e)
  {
    RenderingRoundTrip(e);
  }

  // ---------------------------------------------------------------------
  // Every rendering is a JSON text
  // ---------------------------------------------------------------------

  // The member names are plain ASCII, and each key constant is that name as
  // a JSON string followed by its colon.

  lemma ErrorsKeyIsMember()
    ensures PlainName("errors") && ErrorsKey == Key("errors")
  {
  }

  lemma DataKeyIsMember()
    ensures PlainName("data") && DataKey == Key("data")
  {
  }

  lemma MessageKeyIsMember()
    ensures PlainName("message") && MessageKey == OpenBrace + Key("message")
  {
  }

  /** One error record is one JSON object. */
  lemma ErrorIsValue(e: GqlError, t: seq<byte>)
    ensures Value(EncodeError(e) + t) == Some(t)
  {
    ErrorShape(e, t);
    QuoteIsValue(e.message, CloseBrace + t);
    MessageKeyIsMember();
    ObjectWithOne("message", Quote(e.message), t);
  }

  /** An error record, then `t`, as an object with its one member. */
  lemma ErrorShape(e: GqlError, t: seq<byte>)
    ensures EncodeError(e) + t == OpenBrace + (Key("message") + (Quote(e.message) + (CloseBrace + t)))
  {
    MessageKeyIsMember();
    Nest(OpenBrace, Key("message"), Quote(e.message), CloseBrace, t);
  }

  /** Only regroups a concatenation, so that no proof about the bytes pays for it. */
  lemma Nest(a: seq<byte>, b: seq<byte>, c: seq<byte>, d: seq<byte>, t: seq<byte>)
    ensures (a + b) + (c + d) + t == a + (b + (c + (d + t)))
  {
  }

  lemma {:induction false} ItemsAreElements(errs: seq<GqlError>, t: seq<byte>)
    requires errs != []
    ensures ElementList(EncodeItems(errs) + (CloseBracket + t)) == Some(t)
  {
    if |errs| == 1 {
      var u := CloseBracket + t;
      ErrorIsValue(errs[0], u);
      ElementThen(EncodeError(errs[0]), u);
      assert u[1..] == t;
    } else {
      var more := EncodeItems(errs[1..]) + (CloseBracket + t);
      var u := Comma + more;
      assert EncodeItems(errs) + (CloseBracket + t) == EncodeError(errs[0]) + u by {
        Regroup(EncodeError(errs[0]), Comma, EncodeItems(errs[1..]), CloseBracket + t);
      }
      ErrorIsValue(errs[0], u);
      ElementThen(EncodeError(errs[0]), u);
      assert u[1..] == more;
      ItemsAreElements(errs[1..], t);
    }
  }

  /** An error list is one JSON array. */
  lemma ListIsValue(errs: seq<GqlError>, t: seq<byte>)
    ensures Value(EncodeList(errs) + t) == Some(t)
  {
    if errs == [] {
      var x := CloseBracket + t;
      assert EncodeList(errs) + t == OpenBracket + x;
      ArrayOf(x);
      assert x[1..] == t;
    } else {
      var x := EncodeItems(errs) + (CloseBracket + t);
      assert EncodeList(errs) + t == OpenBracket + x by {
        Regroup(OpenBracket, EncodeItems(errs), CloseBracket, t);
      }
      assert x[0] == EncodeError(errs[0])[0] == Byte('{');
      ArrayOf(x);
      ItemsAreElements(errs, t);
    }
  }

  /** The members when there are errors, as the error list and what follows it. */
  lemma ErrorsFirst(e: Envelope)
    requires e.errors != []
    ensures Fields(e) + CloseBrace ==
            ErrorsKey + (EncodeList(e.errors) +
              if e.data == [] then CloseBrace else Comma + (DataKey + (e.data + CloseBrace)))
  {
    var list := EncodeList(e.errors);
    if e.data == [] {
      assert Fields(e) == ErrorsKey + list;
    } else {
      assert Fields(e) == ErrorsKey + (list + (Comma + (DataKey + e.data)));
      Flatten(ErrorsKey, list, Comma, DataKey, e.data, [], CloseBrace);
      Flatten([], ErrorsKey, list, Comma, DataKey, e.data, CloseBrace);
    }
  }

  lemma RenderingValid(e: Envelope)
    requires e.data == [] || ValidJson(e.data)
    ensures ValidJson(OpenBrace + (Fields(e) + CloseBrace))
  {
    var x := Fields(e) + CloseBrace;
    ErrorsKeyIsMember();
    DataKeyIsMember();
    if e.errors == [] && e.data == [] {
      ObjectOf(x);
    } else if e.errors == [] {
      assert x == Key("data") + (e.data + CloseBrace);
      Embedded(e.data, CloseBrace);
      ObjectWithLast("data", e.data);
    } else if e.data == [] {
      ErrorsFirst(e);
      ListIsValue(e.errors, CloseBrace);
      ObjectWithLast("errors", EncodeList(e.errors));
    } else {
      ErrorsFirst(e);
      ListIsValue(e.errors, Comma + (DataKey + (e.data + CloseBrace)));
      Embedded(e.data, CloseBrace);
      ObjectWithTwo("errors", EncodeList(e.errors), "data", e.data);
    }
  }

  /** What Marshal renders is always one JSON text. */
  lemma MarshalValid(e: Envelope)
    requires Marshal(e).Success?
    ensures ValidJson(Marshal(e).value)
  {
    RenderingValid(e);
  }

  // ---------------------------------------------------------------------
  // What WriteTo writes
  // ---------------------------------------------------------------------

  /** The bytes WriteTo hands to the writer for a response whose value is
      `e`: its own rendering if that succeeds, otherwise the rendering of the
      fallback response; nothing if that fails too. */
  function Rendered(e: Envelope): (r: Option<seq<byte>>)
    ensures r.Some? ==> ValidJson(r.value)
    ensures r.Some? ==> ParseEnvelope(r.value) == Some(if Marshal(e).Success? then e else Fallback)
  {
    match Marshal(e)
    case Success(b) =>
      MarshalValid(e);
      MarshalRoundTrip(e);
      Some(b)
    case Failure(_) =>
      match Marshal(Fallback)
      case Success(b) =>
        MarshalValid(Fallback);
        MarshalRoundTrip(Fallback);
        Some(b)
      case Failure(_) => None
  }

  /** The fallback always renders, so WriteTo always has bytes to write. */
  lemma FallbackRenders()
    ensures Marshal(Fallback).Success?
    ensures forall e :: Rendered(e).Some?
  {
    FallbackMarshals();
  }

  lemma FallbackMarshals()
    ensures Marshal(Fallback).Success?
  {
    NullIsValid();
  }

  /** Something is always written: the response itself when it renders and
      otherwise the fallback, one error with the fixed message and `data`
      null. Either way the bytes are one JSON text. */
  lemma RenderedReadsBack(e: Envelope)
    ensures Rendered(e).Some?
    ensures ValidJson(Rendered(e).value)
    ensures ParseEnvelope(Rendered(e).value) == Some(if Marshal(e).Success? then e else Fallback)
  {
    FallbackRenders();
  }

  // OneErrorLayout, OneErrorPrefix, FallbackSuffix, SuffixOf and Reassociate
  // only split sequence-associativity steps into proofs of their own.

  /** How a one-error rendering is laid out around its quoted message. */
  lemma OneErrorLayout(q: seq<byte>, tail: seq<byte>)
    ensures OpenBrace + ((ErrorsKey + ((OpenBracket + ((MessageKey + (q + CloseBrace)) + CloseBracket)) + tail)) + CloseBrace)
         == (OpenBrace + ErrorsKey + OpenBracket + MessageKey) + (q + (CloseBrace + CloseBracket + tail + CloseBrace))
  {
  }

  lemma OneErrorPrefix()
    ensures Ascii("{\"errors\":[{\"message\":") == OpenBrace + ErrorsKey + OpenBracket + MessageKey
  {
  }

  lemma FallbackSuffix()
    ensures Ascii("}],\"data\":null}") == CloseBrace + CloseBracket + (Comma + (DataKey + Null)) + CloseBrace
  {
  }

  /** Both halves of the fixed message need no escaping. */
  lemma FallbackVerbatim()
    ensures Verbatim("Failed to write a valid ") && Verbatim("GraphQL JSON response")
  {
    assert Verbatim("Failed to write a valid ");
  }

  /** The fixed message needs no escaping: its JSON string is its own bytes
      between quotes. */
  lemma FallbackQuoted()
    ensures Quote(FallbackMessage) ==
            [Byte('"')] + (Ascii("Failed to write a valid ") + Ascii("GraphQL JSON response")) + [Byte('"')]
  {
    var a, b := "Failed to write a valid ", "GraphQL JSON response";
    FallbackVerbatim();
    EscapeAppend(a, b);
    EscapeVerbatim(a);
    EscapeVerbatim(b);
  }

  /** When the response does not render, the bytes written are these, the
      same whatever the response held. */
  lemma FallbackBytes(e: Envelope)
    requires Marshal(e).Failure?
    ensures Rendered(e) == Some(Ascii("{\"errors\":[{\"message\":")
                                + (Quote(FallbackMessage) + Ascii("}],\"data\":null}")))
  {
    FallbackRenders();
    assert Rendered(e) == Some(OpenBrace + (Fields(Fallback) + CloseBrace));
    assert Fields(Fallback) == ErrorsKey + (EncodeList(Fallback.errors) + (Comma + (DataKey + Null)));
    assert EncodeList(Fallback.errors) == OpenBracket + ((MessageKey + (Quote(FallbackMessage) + CloseBrace)) + CloseBracket);
    OneErrorLayout(Quote(FallbackMessage), Comma + (DataKey + Null));
    OneErrorPrefix();
    FallbackSuffix();
  }

  /** A response with one error and no data renders as
      `{"errors":[{"message":…}]}`, without a `data` key. */
  lemma SingleErrorBytes(message: string)
    ensures Marshal(Envelope([GqlError(message)], [])) ==
            Success(Ascii("{\"errors\":[{\"message\":") + (Quote(message) + Ascii("}]}")))
  {
    var e := Envelope([GqlError(message)], []);
    assert Fields(e) == ErrorsKey + (EncodeList(e.errors) + []);
    assert EncodeList(e.errors) == OpenBracket + ((MessageKey + (Quote(message) + CloseBrace)) + CloseBracket);
    OneErrorLayout(Quote(message), []);
    OneErrorPrefix();
    assert Ascii("}]}") == CloseBrace + CloseBracket + [] + CloseBrace;
  }

  lemma SuffixOf(x: seq<byte>, y: seq<byte>)
    ensures (x + y)[|x + y| - |y|..] == y
  {
  }

  lemma Reassociate(a: seq<byte>, p: seq<byte>, k: seq<byte>, n: seq<byte>, c: seq<byte>)
    ensures a + ((p + (k + n)) + c) == (a + p) + (k + n + c)
  {
  }

  /** The members of an envelope with null data end in `"data":null`. */
  lemma NullDataMember(errs: seq<GqlError>)
    ensures exists pre :: Fields(Envelope(errs, Null)) == pre + (DataKey + Null)
  {
    var pre: seq<byte> := if errs == [] then [] else ErrorsKey + (EncodeList(errs) + Comma);
    if errs != [] {
      Regroup(ErrorsKey, EncodeList(errs), Comma, DataKey + Null);
    }
    assert Fields(Envelope(errs, Null)) == pre + (DataKey + Null);
  }

  /** Null data renders, and is rendered last: `"data":null` just before
      the closing brace. */
  lemma NullDataLast(errs: seq<GqlError>)
    ensures Marshal(Envelope(errs, Null)).Success?
    ensures var b := Marshal(Envelope(errs, Null)).value;
            var last := DataKey + Null + CloseBrace;
            |b| >= |last| && b[|b| - |last|..] == last
  {
    NullIsValid();
    NullDataMember(errs);
    var pre :| Fields(Envelope(errs, Null)) == pre + (DataKey + Null);
    Reassociate(OpenBrace, pre, DataKey, Null, CloseBrace);
    SuffixOf(OpenBrace + pre, DataKey + Null + CloseBrace);
  }

  /** Absent data reads back as absent and null data as null. */
  lemma NullVersusAbsent(errs: seq<GqlError>)
    ensures Marshal(Envelope(errs, [])).Success?
    ensures Marshal(Envelope(errs, Null)).Success?
    ensures ParseEnvelope(Marshal(Envelope(errs, [])).value) == Some(Envelope(errs, []))
    ensures ParseEnvelope(Marshal(Envelope(errs, Null)).value) == Some(Envelope(errs, Null))
  {
    NullIsValid();
    RenderingRoundTrip(Envelope(errs, []));
    RenderingRoundTrip(Envelope(errs, Null));
  }

  // ---------------------------------------------------------------------
  // The Response object
  // ---------------------------------------------------------------------

  /** A GraphQL response. Each field is left out of the JSON when empty. */
  class Response {
    var errors: seq<GqlError>
    var data: seq<byte>

    constructor (errors: seq<GqlError>, data: seq<byte>)
      ensures this.errors == errors && this.data == data
    {
      this.errors := errors;
      this.data := data;
    }

    function Value(): Envelope
      reads this
    {
      Envelope(errors, data)
    }

    /** A response holding exactly one error with the given (already
        formatted) message, and no data. */
    static method ErrorResponsef(message: string) returns (r: Response)
      ensures fresh(r)
      ensures |r.errors| == 1 && r.errors[0].message == message
      ensures r.data == []
    {
      r := new Response([GqlError(message)], []);
    }

    /** Sets the data to `null`, whatever it was, so that WriteTo writes
        `"data":null`. */
    method WithNullData()
      modifies this
      ensures data == Null
      ensures errors == old(errors)
    {
      data := Null;
    }

    /** Renders the response as compact JSON and makes exactly one write of
        it to `w`, returning what the writer reported. If the response does
        not render, the fallback response is written instead; if even that
        does not render, nothing is written and an error is returned. The
        response itself is not changed. */
    method WriteTo(w: Writer) returns (count: Int64, err: Option<Error>)
      requires w.Valid()
      modifies w
      ensures w.Valid()
      ensures unchanged(this)
      ensures match Rendered(Value())
        case Some(b) => w.Wrote(b, count as Int, err) && (count as Int, err) == old(w.Reply(b))
        case None => count == 0 && err.Some? && err.value.Wrapped? && unchanged(w)
    {
      var b := Marshal(Value());
      if b.Failure? {
        var msg := FallbackMessage;
        var errResp := ErrorResponsef(msg);
        errResp.WithNullData();
        assert errResp.Value() == Fallback;
        b := Marshal(errResp.Value());
        if b.Failure? {
          return 0, Some(Wrapped("failed to even marshal json error msg", b.error));
        }
      }
      assert Rendered(Value()) == Some(b.value);
      assert w.Reply(b.value) == old(w.Reply(b.value));
      var n;
      n, err := w.Write(b.value);
      count := n as Int64;
    }
  }
}
