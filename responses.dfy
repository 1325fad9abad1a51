/** The response normaliser of `src/response.js`: a `Response` object is built
    from what the transport delivered (status, status text, body text, the raw
    header block and the `content-type` header read on its own), derives the
    status-class flags, the media type and its parameters, and parses the
    body with the parser registered for the media type. */
module Responses {
  import opened Wrappers
  import opened Strings
  import opened Fields
  import opened Js
  import opened Utils
  import opened Globals

  /** What the transport hands over once a response has arrived:
      `xhr.status`, `xhr.statusText`, `xhr.responseText`,
      `xhr.getAllResponseHeaders()` and `xhr.getResponseHeader('content-type')`
      (None for null). */
  datatype Transport = Transport(
    status: int,
    statusText: string,
    text: string,
    allHeaders: string,
    contentType: Option<string>)

  /** The `Error` `toError` builds: the fields set on it, and its message,
      which is determined by them. */
  datatype ResponseError = ResponseError(status: int, verb: string, url: string)
  {
    function Message(): string
    {
      ErrorMessage(verb, url, status)
    }
  }

  /** `status / 100 | 0`: the hundreds digit, the quotient truncated toward
      zero. */
  function StatusClass(status: int): (c: int)
    ensures 0 <= status ==> 100 * c <= status < 100 * c + 100
    ensures status < 0 ==> 100 * c - 100 < status <= 100 * c
  {
    if 0 <= status then status / 100 else -((-status) / 100)
  }

  /** The message of `toError`: "cannot", the request method, the URL and
      the status in parentheses. */
  function ErrorMessage(verb: string, url: string, status: int): string
  {
    "cannot " + verb + " " + url + " (" + IntToString(status) + ")"
  }

  /** The header map: the parsed block `fields` as strings, with
      `content-type` replaced by what the transport reports for it directly. */
  function ResponseHeader(fields: map<string, string>, contentType: Option<string>): map<string, Value>
  {
    (map k | k in fields :: Str(fields[k]))["content-type" := if contentType.Some? then Str(contentType.value) else Null]
  }

  /** The header holds the transport's `content-type` (null when it reports
      none) and every other parsed field, as a string, and nothing else. */
  lemma ResponseHeaderFields(fields: map<string, string>, contentType: Option<string>)
    ensures var h := ResponseHeader(fields, contentType);
      && "content-type" in h
      && h["content-type"] == (if contentType.Some? then Str(contentType.value) else Null)
      && (forall k :: k != "content-type" ==> (k in h <==> k in fields))
      && (forall k :: k != "content-type" && k in h ==> k in fields && h[k] == Str(fields[k]))
  {
  }

  /** The fields the raw header block of `t` parses to. */
  function BlockFields(t: Transport): map<string, string>
  {
    HeaderFields(HeaderLines(t.allHeaders))
  }

  /** `this.header['content-type'] || ''`. */
  function ContentTypeText(header: map<string, Value>): string
  {
    if "content-type" in header && header["content-type"].Str? then header["content-type"].s else ""
  }

  /** `header[field.toLowerCase()]`, undefined when absent. */
  function HeaderGet(header: map<string, Value>, field: string): Value
  {
    if Lower(field) in header then header[Lower(field)] else Undefined
  }

  /** `_parseBody` as the constructor applies it: null for a HEAD request, for
      a media type without a registered parser and for an empty text;
      otherwise what the parser returns, or the exception it throws. */
  function BodyOf(env: Env, parsers: map<string, Codec>, verb: string, mediaType: string, text: string)
    : Result<Value>
  {
    if verb != "HEAD" && mediaType in parsers && text != "" then ParseWith(env, parsers[mediaType], text)
    else Ok(Null)
  }

  // ---------------------------------------------------------------------
  // The response object

  /** The properties `_setStatusProperties` assigns, together. */
  datatype StatusProperties = StatusProperties(
    status: int, statusCode: int, statusType: int,
    info: bool, ok: bool, clientError: bool, serverError: bool, error: Option<ResponseError>,
    accepted: bool, noContent: bool, badRequest: bool, unauthorized: bool,
    notAcceptable: bool, notFound: bool, forbidden: bool)

  /** The status properties before any status is set. */
  const NoStatus: StatusProperties :=
    StatusProperties(0, 0, 0, false, false, false, false, None, false, false, false, false, false, false, false)

  /** Every property a `Response` carries, as one value. */
  datatype ResponseView = ResponseView(
    verb: string, url: string, text: string, statusText: string, props: StatusProperties,
    header: map<string, Value>, mediaType: string, params: map<string, string>, body: Value)

  /** What `_setStatusProperties(s)` leaves for a request `verb url`: the
      status, its class, the class flags, `toError()` for classes 4 and 5 and
      the sugar flags. */
  function StatusPropertiesOf(s: int, verb: string, url: string): StatusProperties
  {
    var c := StatusClass(s);
    StatusProperties(s, s, c, 1 == c, 2 == c, 4 == c, 5 == c,
                     if 4 == c || 5 == c then Some(ResponseError(s, verb, url)) else None,
                     202 == s, 204 == s, 400 == s, 401 == s, 406 == s, 404 == s, 403 == s)
  }

  /** What `_setHeaderProperties` leaves: the media type and the parameters
      of the `content-type` entry; every other property is untouched. */
  function WithHeaderProperties(v: ResponseView): ResponseView
  {
    var ct := ContentTypeText(v.header);
    v.(mediaType := Type(ct), params := Params(ct))
  }

  /** A freshly allocated response: the request, the transport's texts and
      the parsed header block with the directly reported `content-type`; no
      status, media type, parameters or body yet. */
  function Allocated(verb: string, url: string, t: Transport): ResponseView
  {
    ResponseView(verb, url, t.text, t.statusText, NoStatus, ResponseHeader(BlockFields(t), t.contentType), "", map[], Null)
  }

  /** The response the constructor has built once the status and header
      properties are set, before the body is parsed. */
  function Built(verb: string, url: string, t: Transport): ResponseView
  {
    WithHeaderProperties(Allocated(verb, url, t).(props := StatusPropertiesOf(t.status, verb, url)))
  }

  /** `Built` field by field. */
  lemma BuiltFields(verb: string, url: string, t: Transport)
    ensures var b := Built(verb, url, t);
      && b.verb == verb && b.url == url && b.text == t.text && b.statusText == t.statusText
      && b.props == StatusPropertiesOf(t.status, verb, url)
      && b.header == ResponseHeader(BlockFields(t), t.contentType)
      && b.mediaType == Type(ContentTypeText(b.header)) && b.params == Params(ContentTypeText(b.header))
      && b.body == Null
  {
  }

  /** `new Response(req)` completed: the built response with its parsed body,
      or the exception the body's parser throws. */
  function Normalised(env: Env, parsers: map<string, Codec>, verb: string, url: string, t: Transport)
    : Result<ResponseView>
  {
    var v := Built(verb, url, t);
    match BodyOf(env, parsers, verb, v.mediaType, t.text)
    case Ok(b) => Ok(v.(body := b))
    case Err(e) => Err(e)
  }

  class Response {
    var verb: string
    var url: string
    var text: string
    var statusText: string
    var props: StatusProperties
    var header: map<string, Value>
    var mediaType: string
    var params: map<string, string>
    var body: Value

    /** The response's properties. */
    ghost function View(): ResponseView
      reads this
    {
      ResponseView(verb, url, text, statusText, props, header, mediaType, params, body)
    }

    /** The allocation `new Response(req)` starts with: the request, the
        transport's texts and the parsed header block with the directly
        reported `content-type`; the status and header properties and the
        body are set afterwards, by `NewResponse`. */
    constructor (verb0: string, url0: string, t: Transport)
      ensures View() == Allocated(verb0, url0, t)
    {
      var fields := ParseHeader(t.allHeaders);
      verb, url := verb0, url0;
      text, statusText := t.text, t.statusText;
      props := NoStatus;
      header := ResponseHeader(fields, t.contentType);
      mediaType, params, body := "", map[], Null;
    }

    /** `toError()`: the error names the request and the status. */
    function ToError(): (e: ResponseError)
      reads this
      ensures e.status == props.status && e.verb == verb && e.url == url
      ensures e.Message() == ErrorMessage(verb, url, props.status)
    {
      ResponseError(props.status, verb, url)
    }

    /** `_setStatusProperties(status)`: the status and its class first, then
      the flags; `toError()` reads the status just stored. */
    method SetStatusProperties(s: int)
      modifies this`props
      ensures View() == old(View()).(props := StatusPropertiesOf(s, verb, url))
    {
      var c := StatusClass(s);
      props := props.(status := s, statusCode := s, statusType := c);
      var error := if 4 == c || 5 == c then Some(ToError()) else None;
      props := props.(info := 1 == c, ok := 2 == c, clientError := 4 == c, serverError := 5 == c, error := error,
                      accepted := 202 == s, noContent := 204 == s, badRequest := 400 == s,
                      unauthorized := 401 == s, notAcceptable := 406 == s, notFound := 404 == s,
                      forbidden := 403 == s);
    }

    /** `_setHeaderProperties`: the media type of `content-type`, and its
      parameters copied over. */
    method SetHeaderProperties()
      modifies this`mediaType, this`params
      ensures View() == WithHeaderProperties(old(View()))
    {
      var ct := if "content-type" in header && header["content-type"].Str? then header["content-type"].s else "";
      mediaType := Type(ct);
      var obj := Params(ct);
      params := CopyKeys(map[], obj);
    }

    /** `get(field)`. */
    function Get(field: string): Value
      reads this
    {
      HeaderGet(header, field)
    }
  }

  /** `for (var key in obj) target[key] = obj[key]`: every key of `obj`
      copied, one at a time, over what `target` held. */
  method CopyKeys<V>(target: map<string, V>, obj: map<string, V>) returns (r: map<string, V>)
    ensures r == target + obj
  {
    r := target;
    var todo := obj.Keys;
    while todo != {}
      invariant todo <= obj.Keys
      invariant r == target + (map k | k in obj.Keys - todo :: obj[k])
      decreases |todo|
    {
      var key :| key in todo;
      r := r[key := obj[key]];
      todo := todo - {key};
    }
    assert (map k | k in obj.Keys - todo :: obj[k]) == obj;
  }

  /** `new Response(req)`: the status properties, then the header
      properties, then the body; the response, or the exception the body's
      parser throws. */
  method NewResponse(env: Env, parsers: map<string, Codec>, verb: string, url: string, t: Transport)
    returns (r: Result<Response>)
    ensures r.Ok? <==> Normalised(env, parsers, verb, url, t).Ok?
    ensures r.Err? ==> r.message == Normalised(env, parsers, verb, url, t).message
    ensures r.Ok? ==> fresh(r.value) && r.value.View() == Normalised(env, parsers, verb, url, t).value
  {
    var res := new Response(verb, url, t);
    res.SetStatusProperties(t.status);
    res.SetHeaderProperties();
    var body := if verb != "HEAD" && res.mediaType in parsers && res.text != ""
                then ParseWith(env, parsers[res.mediaType], res.text) else Ok(Null);
    if body.Err? {
      return Err(body.message);
    }
    res.body := body.value;
    return Ok(res);
  }

  // ---------------------------------------------------------------------
  // What the status properties promise

  /** The status is recorded twice, with its class; the class flags hold
      exactly for the 1xx, 2xx, 4xx and 5xx ranges, so at most one of them
      holds. */
  lemma StatusClassFlags(s: int, verb: string, url: string)
    ensures var p := StatusPropertiesOf(s, verb, url);
      && p.status == s && p.statusCode == s
      && (0 <= s ==> 100 * p.statusType <= s < 100 * p.statusType + 100)
      && (p.info <==> 100 <= s < 200) && (p.ok <==> 200 <= s < 300)
      && (p.clientError <==> 400 <= s < 500) && (p.serverError <==> 500 <= s < 600)
      && (if p.info then 1 else 0) + (if p.ok then 1 else 0)
         + (if p.clientError then 1 else 0) + (if p.serverError then 1 else 0) <= 1
  {
  }

  /** The error is present exactly for a client or server error, and then it
      carries the status, method and URL and says "cannot <method> <url>
      (<status>)". */
  lemma StatusError(s: int, verb: string, url: string)
    ensures var p := StatusPropertiesOf(s, verb, url);
      && (p.error.Some? <==> 400 <= s < 600)
      && (p.error.Some? <==> p.clientError || p.serverError)
      && (p.error.Some? ==> p.error.value == ResponseError(s, verb, url))
      && (p.error.Some? ==> p.error.value.Message() == ErrorMessage(verb, url, s))
  {
  }

  /** Each sugar flag holds for exactly its status code, so 202 and 204 are
      successes and the others client errors that carry an error. */
  lemma StatusSugarFlags(s: int, verb: string, url: string)
    ensures var p := StatusPropertiesOf(s, verb, url);
      && (p.accepted <==> s == 202) && (p.noContent <==> s == 204) && (p.badRequest <==> s == 400)
      && (p.unauthorized <==> s == 401) && (p.notAcceptable <==> s == 406)
      && (p.notFound <==> s == 404) && (p.forbidden <==> s == 403)
      && (p.accepted || p.noContent ==> p.ok && p.error.None?)
      && (p.badRequest || p.unauthorized || p.forbidden || p.notFound || p.notAcceptable
          ==> p.clientError && p.error.Some?)
  {
  }

  // ---------------------------------------------------------------------
  // What the header properties promise

  /** `get` does not care how the name is spelt. */
  lemma HeaderGetCaseInsensitive(header: map<string, Value>, f: string, g: string)
    requires Lower(f) == Lower(g)
    ensures HeaderGet(header, f) == HeaderGet(header, g)
  {
  }

  /** Whatever the header block says about `content-type`, the entry is the
      value the transport reports directly; every other field is the parsed
      block's, so `get` reads it under any spelling of its name. */
  lemma BuiltHeader(verb: string, url: string, t: Transport, field: string)
    ensures var h := Built(verb, url, t).header;
      && (Lower(field) == "content-type" ==>
            HeaderGet(h, field) == (if t.contentType.Some? then Str(t.contentType.value) else Null))
      && (Lower(field) != "content-type" && Lower(field) in BlockFields(t) ==>
            HeaderGet(h, field) == Str(BlockFields(t)[Lower(field)]))
      && (Lower(field) != "content-type" && Lower(field) !in BlockFields(t) ==>
            HeaderGet(h, field) == Undefined)
  {
    ResponseHeaderFields(BlockFields(t), t.contentType);
  }

  /** The media type and parameters come from the directly reported
      `content-type`: `type` of it (or of "" when there is none) and every
      parameter of it. */
  lemma BuiltMediaType(verb: string, url: string, t: Transport)
    ensures var ct := if t.contentType.Some? then t.contentType.value else "";
      Built(verb, url, t).mediaType == Type(ct) && Built(verb, url, t).params == Params(ct)
  {
    var h := ResponseHeader(BlockFields(t), t.contentType);
    ResponseHeaderFields(BlockFields(t), t.contentType);
    assert ContentTypeText(h) == if t.contentType.Some? then t.contentType.value else "";
  }

  /** A content type written as a media type and parameter pairs, with any
      spaces around each `;` and `=`, each separator its own, gives that
      media type and those parameters. */
  lemma BuiltMediaTypeParams(verb: string, url: string, t: Transport, mt: string, ps: seq<(string, string)>,
                             eqs: seq<(nat, nat)>, semis: seq<(nat, nat)>)
    requires |eqs| == |ps| && |semis| == |ps|
    requires ';' !in mt && '=' !in mt && Unpadded(mt)
    requires forall i :: 0 <= i < |ps| ==> GoodParam(ps[i])
    requires t.contentType == Some(Glued([mt] + ParamStrings(ps, eqs), ';', semis))
    ensures Built(verb, url, t).mediaType == mt
    ensures Built(verb, url, t).params == Assigned(ps)
  {
    BuiltMediaType(verb, url, t);
    MediaTypeRoundTrip(mt, ps, eqs, semis);
  }

  // ---------------------------------------------------------------------
  // What the body promises

  /** The body of a HEAD response is null; otherwise it is what the parser
      registered for the media type makes of a non-empty text, and null when
      there is no such parser or no text.  Only a throwing parser makes the
      construction fail. */
  lemma NormalisedBody(env: Env, parsers: map<string, Codec>, verb: string, url: string, t: Transport)
    ensures var v, n := Built(verb, url, t), Normalised(env, parsers, verb, url, t);
      && (verb == "HEAD" || v.mediaType !in parsers || t.text == "" ==> n == Ok(v.(body := Null)))
      && (verb != "HEAD" && v.mediaType in parsers && t.text != "" ==>
            match ParseWith(env, parsers[v.mediaType], t.text)
            case Ok(b) => n == Ok(v.(body := b))
            case Err(e) => n == Err(e))
  {
  }

  /** A form-encoded body is parsed back into the object it was serialised
      from, every value a string. */
  lemma FormBodyRoundTrip(env: Env, verb: string, fs: Fields<Value>)
    requires verb != "HEAD"
    requires DistinctKeys(fs)
    requires forall i :: 0 <= i < |fs| ==> Flat(fs[i].1)
    requires Present(fs) != []
    ensures Serialized(Obj(fs)).Str?
    ensures BodyOf(env, DefaultParsers, verb, FormMime, Serialized(Obj(fs)).s)
         == Ok(Obj(StrValues(Stringified(Present(fs)))))
  {
    FormRoundTrip(fs);
    SerializedNonEmpty(fs);
    DefaultFormParser(env, verb, Serialized(Obj(fs)).s);
  }

  /** The default parsers read a form-encoded body with the form codec. */
  lemma DefaultFormParser(env: Env, verb: string, s: string)
    requires verb != "HEAD" && s != ""
    ensures BodyOf(env, DefaultParsers, verb, FormMime, s)
         == match ParsedString(s) case Ok(fs) => Ok(Obj(StrValues(fs))) case Err(e) => Err(e)
  {
    assert FormMime in DefaultParsers && DefaultParsers[FormMime] == FormCodec;
  }
}
