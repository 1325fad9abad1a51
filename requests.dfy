/** The request builder of `src/request.js`: a `Request` collects the method,
    the URL, query fragments, headers (kept twice: as given and under
    lower-cased names), a body, form fields, credentials and flags, and `end`
    turns them into what the transport is handed.  The transport itself,
    `Ti.Network.createHTTPClient`, is not modelled: `End` returns what would
    be set on it, and `OnLoad`/`OnError` take what it reports. */
module Requests {
  import opened Wrappers
  import opened Strings
  import opened Fields
  import opened Js
  import Uri
  import Base64
  import opened Utils
  import opened Globals
  import opened Responses

  // ---------------------------------------------------------------------
  // Headers

  /** `types[type] || type`: a short name the table knows stands for its
      MIME type; anything else is used as given. */
  function Resolve(types: map<string, string>, t: string): string
  {
    if t in types && types[t] != "" then types[t] else t
  }

  /** The name/value pairs `set(field, val)` assigns: every property an
      object enumerates, or the one pair for a name. */
  function Assignments(field: Value, val: Value): Fields<Value>
    requires field.Str? || IsObject(field)
  {
    if IsObject(field) then Enumerate(field) else [(field.s, val)]
  }

  /** `_header` after each pair is assigned under its lower-cased name. */
  function Lowered(m: map<string, Value>, ps: Fields<Value>): map<string, Value>
  {
    if ps == [] then m
    else
      var last := ps[|ps| - 1];
      Lowered(m, ps[..|ps| - 1])[Lower(last.0) := last.1]
  }

  lemma LoweredPrefix(m: map<string, Value>, ps: Fields<Value>, i: nat)
    requires i < |ps|
    ensures Lowered(m, ps[..i + 1]) == Lowered(m, ps[..i])[Lower(ps[i].0) := ps[i].1]
  {
    assert ps[..i + 1][..i] == ps[..i];
  }

  /** `this._header['content-type']`. */
  function ContentTypeOf(lowerHeader: map<string, Value>): Value
  {
    if "content-type" in lowerHeader then lowerHeader["content-type"] else Undefined
  }

  /** The value of the last pair whose name lower-cases to `key`. */
  function LastLowered(ps: Fields<Value>, key: string): Option<Value>
  {
    if ps == [] then None
    else if Lower(ps[|ps| - 1].0) == key then Some(ps[|ps| - 1].1)
    else LastLowered(ps[..|ps| - 1], key)
  }

  /** Reading a name back after assigning pairs gives the last value assigned
      under any spelling of that name, and the old value when none was. */
  lemma {:induction false} LoweredGet(m: map<string, Value>, ps: Fields<Value>, field: string)
    ensures HeaderGet(Lowered(m, ps), field)
         == match LastLowered(ps, Lower(field)) case Some(v) => v case None => HeaderGet(m, field)
  {
    if ps != [] {
      LoweredGet(m, ps[..|ps| - 1], field);
    }
  }

  /** One `set(field, val)` and then `get(other)`: the value set when the two
      names differ only in letter case, the old value otherwise. */
  lemma SetThenGet(m: map<string, Value>, field: string, val: Value, other: string)
    ensures HeaderGet(Lowered(m, [(field, val)]), other)
         == if Lower(other) == Lower(field) then val else HeaderGet(m, other)
  {
    LoweredGet(m, [(field, val)], other);
    assert [(field, val)][..0] == [];
  }

  /** The lower-cased names of the headers the client sets itself. */
  lemma CanonicalNames()
    ensures Lower("Content-Type") == "content-type"
    ensures Lower("Accept") == "accept"
    ensures Lower("Authorization") == "authorization"
  {
  }

  /** `types[type] || type` with the default table. */
  lemma DefaultResolve(t: string)
    ensures Resolve(DefaultTypes, "json") == JsonMime
    ensures Resolve(DefaultTypes, "form") == FormMime
    ensures Resolve(DefaultTypes, "urlencoded") == FormMime
    ensures t !in DefaultTypes ==> Resolve(DefaultTypes, t) == t
  {
    DefaultRegistries();
  }

  // ---------------------------------------------------------------------
  // The body `send` builds

  /** `'application/x-www-form-urlencoded' == type`: loose equality with a
      string, which an object passes when its string form is equal; no
      number or boolean equals this non-numeric string. */
  predicate IsFormType(contentType: Value)
  {
    (contentType.Str? || IsObject(contentType)) && ToStr(contentType) == FormMime
  }

  /** The short type name `send(data)` falls back to when no Content-Type is
      set: "form" for a string, "json" for an object that is not a host
      object. */
  function DefaultTypeFor(data: Value, contentType: Value): Option<string>
  {
    if Truthy(contentType) then None
    else if data.Str? then Some("form")
    else if IsObject(data) && !data.Host? then Some("json")
    else None
  }

  /** `a[i] = v` for an index at most the length: an element replaced, or
      one appended. */
  function AssignElement(items: seq<Value>, i: nat, v: Value): (r: seq<Value>)
    requires i <= |items|
  {
    if i < |items| then items[i := v] else items + [v]
  }

  /** `for (key in vs) a[key] = vs[key]` for an array `vs`: its elements
      assigned into `a` at indices 0, 1, … in turn. */
  function AssignElements(items: seq<Value>, vs: seq<Value>): (r: seq<Value>)
    ensures |r| == if |vs| < |items| then |items| else |vs|
  {
    if vs == [] then items
    else AssignElement(AssignElements(items, vs[..|vs| - 1]), |vs| - 1, vs[|vs| - 1])
  }

  /** Assigning an array into an array overwrites its front: the new
      elements, then whatever the old array had past them. */
  lemma {:induction false} AssignElementsFront(items: seq<Value>, vs: seq<Value>)
    ensures AssignElements(items, vs) == vs + (if |vs| < |items| then items[|vs|..] else [])
  {
    if vs != [] {
      var init, n := vs[..|vs| - 1], |vs| - 1;
      AssignElementsFront(items, init);
      var p := AssignElements(items, init);
      assert p == init + (if n < |items| then items[n..] else []);
      if n < |items| {
        assert p[n := vs[n]] == vs + (if |vs| < |items| then items[|vs|..] else []);
      } else {
        assert p + [vs[n]] == vs;
      }
    }
  }

  /** `for (key in data) this._data[key] = data[key]`: the properties of
      `data` merged into an object body, or the elements of an array merged
      into an array body. */
  function Merged(body: Value, data: Value): Value
  {
    if body.Obj? then Obj(PutAll(body.fields, Enumerate(data)))
    else if body.Arr? && data.Arr? then Arr(AssignElements(body.items, data.items))
    else body
  }

  /** The body after `send(data)`, given the body before and the Content-Type
      the string branch reads (after the "form" default): an object sent
      onto an object body (arrays and host objects included) is merged into
      it as `Merged` says; strings are joined with "&" under the form type and
      concatenated otherwise; anything else replaces the body. */
  function SentBody(body: Value, data: Value, contentType: Value): Value
  {
    if IsObject(data) && IsObject(body) then Merged(body, data)
    else if data.Str? then
      if IsFormType(contentType) then (if Truthy(body) then Str(ToStr(body) + "&" + data.s) else data)
      else Str((if Truthy(body) then ToStr(body) else "") + data.s)
    else data
  }

  /** What `send` reads and writes: the body and both header maps. */
  datatype Draft = Draft(data: Value, header: Fields<Value>, lowerHeader: map<string, Value>)

  /** A request with no body and no headers. */
  const EmptyDraft := Draft(Undefined, [], map[])

  /** `send(data)` on the draft `s`. */
  function SendTo(types: map<string, string>, s: Draft, data: Value): Draft
  {
    var t := DefaultTypeFor(data, ContentTypeOf(s.lowerHeader));
    var header := if t.Some? then Put(s.header, "Content-Type", Str(Resolve(types, t.value))) else s.header;
    var lower := if t.Some? then s.lowerHeader["content-type" := Str(Resolve(types, t.value))] else s.lowerHeader;
    Draft(SentBody(s.data, data, ContentTypeOf(lower)), header, lower)
  }

  /** A Content-Type that is already set is never replaced by `send`. */
  lemma SendKeepsContentType(types: map<string, string>, s: Draft, data: Value)
    requires Truthy(ContentTypeOf(s.lowerHeader))
    ensures SendTo(types, s, data).header == s.header
    ensures SendTo(types, s, data).lowerHeader == s.lowerHeader
  {
  }

  /** An object sent while no Content-Type is set makes it the type the
      table gives "json", under both header maps; the object merges into an
      object body and replaces any other. */
  lemma SendObjectDefaultsToJson(types: map<string, string>, s: Draft, fs: Fields<Value>)
    requires !Truthy(ContentTypeOf(s.lowerHeader))
    ensures var r, ct := SendTo(types, s, Obj(fs)), Str(Resolve(types, "json"));
      && r.header == Put(s.header, "Content-Type", ct)
      && r.lowerHeader == s.lowerHeader["content-type" := ct]
      && r.data == if IsObject(s.data) then Merged(s.data, Obj(fs)) else Obj(fs)
  {
  }

  /** A string sent while no Content-Type is set makes it the type the table
      gives "form"; when that is the form type, the string is joined to a
      truthy body with "&", otherwise concatenated to it. */
  lemma SendStringDefaultsToForm(types: map<string, string>, s: Draft, a: string)
    requires !Truthy(ContentTypeOf(s.lowerHeader))
    ensures var r, ct := SendTo(types, s, Str(a)), Str(Resolve(types, "form"));
      && r.header == Put(s.header, "Content-Type", ct)
      && r.lowerHeader == s.lowerHeader["content-type" := ct]
      && r.data == if IsFormType(ct) then (if Truthy(s.data) then Str(ToStr(s.data) + "&" + a) else Str(a))
                   else Str((if Truthy(s.data) then ToStr(s.data) else "") + a)
  {
  }

  /** Under the form type a string is joined to a truthy body with "&" and
      becomes the body otherwise; the headers stay as they are. */
  lemma SendStringsJoined(types: map<string, string>, s: Draft, a: string)
    requires IsFormType(ContentTypeOf(s.lowerHeader))
    ensures SendTo(types, s, Str(a))
         == Draft(if Truthy(s.data) then Str(ToStr(s.data) + "&" + a) else Str(a), s.header, s.lowerHeader)
  {
  }

  /** Two strings sent to a fresh request with the default table: the first
      sets the form type, and the second is joined to it with "&". */
  lemma SendTwoStrings(a: string, b: string)
    requires a != ""
    ensures var s := SendTo(DefaultTypes, SendTo(DefaultTypes, EmptyDraft, Str(a)), Str(b));
      && s.data == Str(a + "&" + b)
      && s.header == [("Content-Type", Str(FormMime))]
  {
    DefaultResolve("form");
    var s1 := SendTo(DefaultTypes, EmptyDraft, Str(a));
    SendStringDefaultsToForm(DefaultTypes, EmptyDraft, a);
    assert s1.data == Str(a);
    assert ContentTypeOf(s1.lowerHeader) == Str(FormMime);
    SendStringsJoined(DefaultTypes, s1, b);
  }

  /** Under any other Content-Type strings are concatenated as they are. */
  lemma SendStringsConcatenated(types: map<string, string>, s: Draft, a: string)
    requires Truthy(ContentTypeOf(s.lowerHeader)) && !IsFormType(ContentTypeOf(s.lowerHeader))
    ensures SendTo(types, s, Str(a)).data
         == Str((if Truthy(s.data) then ToStr(s.data) else "") + a)
  {
  }

  /** An object sent onto an object body is merged into it: its properties
      take its values, every other property keeps its own. */
  lemma SendMerges(types: map<string, string>, s: Draft, fs: Fields<Value>, gs: Fields<Value>, k: string)
    requires s.data == Obj(fs) && DistinctKeys(gs)
    ensures SendTo(types, s, Obj(gs)).data.Obj?
    ensures Get(SendTo(types, s, Obj(gs)).data.fields, k) == if k in Keys(gs) then Get(gs, k) else Get(fs, k)
  {
    PutAllGet(fs, gs, k);
  }

  /** An array sent onto an array body overwrites its front, element by
      element: `send([1, 2]).send([3])` leaves `[3, 2]`. */
  lemma SendMergesArray(types: map<string, string>, s: Draft, xs: seq<Value>, ys: seq<Value>)
    requires s.data == Arr(xs)
    ensures SendTo(types, s, Arr(ys)).data == Arr(ys + (if |ys| < |xs| then xs[|ys|..] else []))
  {
    AssignElementsFront(xs, ys);
  }

  /** Anything but an object onto an object body, and anything but a string,
      replaces the body: an object sent after a string body replaces it. */
  lemma SendReplaces(types: map<string, string>, s: Draft, data: Value)
    requires !data.Str? && !(IsObject(data) && IsObject(s.data))
    ensures SendTo(types, s, data).data == data
  {
  }

  // ---------------------------------------------------------------------
  // What `end` hands the transport

  /** `/[\/+]json\b/` matches at `i`: a "/" or "+", then "json", then the end
      of the string or a character that is not a word character. */
  predicate JsonSuffixAt(s: string, i: int)
  {
    0 <= i && i + 5 <= |s| && (s[i] == '/' || s[i] == '+') && s[i + 1..i + 5] == "json"
    && (i + 5 == |s| || !IsWordChar(s[i + 5]))
  }

  predicate IsWordChar(c: char)
  {
    'a' <= c <= 'z' || 'A' <= c <= 'Z' || '0' <= c <= '9' || c == '_'
  }

  /** Whether the pattern matches at `i` or later. */
  function JsonFrom(s: string, i: nat): (r: bool)
    requires i <= |s|
    ensures r <==> exists j :: i <= j && JsonSuffixAt(s, j)
    decreases |s| - i
  {
    if i == |s| then false
    else if JsonSuffixAt(s, i) then true
    else
      var r := JsonFrom(s, i + 1);
      assert forall j :: i <= j && JsonSuffixAt(s, j) ==> j == i || i + 1 <= j;
      r
  }

  /** `isJSON(mime)`: the MIME type is JSON or has the `+json` suffix. */
  function IsJSON(mime: string): (r: bool)
    ensures r <==> exists i :: JsonSuffixAt(mime, i)
  {
    JsonFrom(mime, 0)
  }

  /** The pattern matches where its characters stand. */
  lemma JsonSuffixFrom(s: string, i: nat)
    requires i + 5 <= |s| && (s[i] == '/' || s[i] == '+')
    requires s[i + 1] == 'j' && s[i + 2] == 's' && s[i + 3] == 'o' && s[i + 4] == 'n'
    requires i + 5 == |s| || !IsWordChar(s[i + 5])
    ensures JsonSuffixAt(s, i)
  {
    assert s[i + 1..i + 5] == "json";
  }

  /** Types `isJSON` takes for JSON: the JSON type itself, with or without
      parameters, and a `+json` suffix. */
  lemma IsJSONAccepts()
    ensures IsJSON("application/json")
    ensures IsJSON("application/vnd.api+json")
    ensures IsJSON("application/json; charset=utf-8")
  {
    JsonSuffixFrom("application/json", 11);
    JsonSuffixFrom("application/vnd.api+json", 19);
    JsonSuffixFrom("application/json; charset=utf-8", 11);
  }

  /** "json" followed by a word character is not the JSON type. */
  lemma IsJSONRejectsJsonp()
    ensures !IsJSON("application/jsonp")
  {
    var p := "application/jsonp";
    forall i ensures !JsonSuffixAt(p, i) {
      if 0 <= i && i + 5 <= |p| && i != 11 {
        assert p[i] != '/' && p[i] != '+';
      }
    }
  }

  /** A type with no "json" in it is not JSON. */
  lemma IsJSONRejectsHtml()
    ensures !IsJSON("text/html")
  {
    var h := "text/html";
    forall i ensures !JsonSuffixAt(h, i) {
      if 0 <= i && i + 5 <= |h| {
        if i != 4 {
          assert h[i] != '/' && h[i] != '+';
        } else {
          assert h[i + 1..i + 5][0] == 'h';
        }
      }
    }
  }

  /** `this._query.join('&')`. */
  function QueryString(fragments: seq<Value>): string
  {
    Join(ElementStrings(fragments), "&")
  }

  /** The URL after `end` appends the query: after "&" when the URL already
      has a "?", after "?" otherwise, and not at all when it is empty. */
  function WithQuery(url: string, query: string): (r: string)
    ensures query == "" ==> r == url
    ensures query != "" ==> r == url + (if '?' in url then "&" else "?") + query
  {
    if query == "" then url
    else
      var q := Serialized(Str(query));
      url + (if IndexOf(url, '?') != -1 then "&" else "?") + ToStr(q)
  }

  /** The URL keeps everything before the query, and the query the fragments
      make is appended as it is, without a second encoding. */
  lemma WithQueryAppends(url: string, fragments: seq<Value>)
    requires QueryString(fragments) != ""
    ensures var r := WithQuery(url, QueryString(fragments));
      && r[..|url|] == url
      && r[|url| + 1..] == QueryString(fragments)
      && '?' in r
  {
    var r := WithQuery(url, QueryString(fragments));
    assert r[|url|] in "&?";
    if '?' !in url {
      assert r[|url|] == '?';
    } else {
      var i :| 0 <= i < |url| && url[i] == '?';
      assert r[i] == '?';
    }
  }

  /** `this._formData || this._data`: the form fields win when any were
      given. */
  function Payload(formData: Option<Fields<Value>>, data: Value): Value
  {
    if formData.Some? then Obj(formData.value) else data
  }

  /** The serializer `end` picks: the request's own first, then the one
      registered for the Content-Type up to its first ";", then JSON's when
      the type looks like JSON. */
  function SerializerFor(parser: Option<Codec>, serializers: map<string, Codec>, contentType: Value)
    : Option<Codec>
  {
    if parser.Some? then parser
    else
      var key := if Truthy(contentType) then Split(ToStr(contentType), ';')[0] else "";
      if key in serializers then Some(serializers[key])
      else if IsJSON(ToStr(contentType)) && JsonMime in serializers then Some(serializers[JsonMime])
      else None
  }

  /** What `xhr.send` is given: for a method other than GET and HEAD, a body
      that is neither a string nor a host object goes through the chosen
      serializer; undefined, given or produced by the serializer, is sent as
      null. */
  function BodyToSend(env: Env, verb: string, parser: Option<Codec>, serializers: map<string, Codec>,
                      contentType: Value, payload: Value): Value
  {
    var body :=
      if verb != "GET" && verb != "HEAD" && !payload.Str? && !payload.Host? then
        match SerializerFor(parser, serializers, contentType)
        case Some(c) => SerializeWith(env, c, payload)
        case None => payload
      else payload;
    if body.Undefined? then Null else body
  }

  /** A GET or HEAD body, a string and a host object are sent unchanged. */
  lemma BodyUnserialized(env: Env, verb: string, parser: Option<Codec>, serializers: map<string, Codec>,
                         contentType: Value, payload: Value)
    requires verb == "GET" || verb == "HEAD" || payload.Str? || payload.Host?
    ensures BodyToSend(env, verb, parser, serializers, contentType, payload)
         == if payload.Undefined? then Null else payload
  {
  }

  /** `xhr.send` never receives undefined, and a body that was never given
      is sent as null: neither the form codec nor JSON makes anything of
      undefined; only a caller's own serializer could. */
  lemma UndefinedSentAsNull(env: Env, verb: string, parser: Option<Codec>, serializers: map<string, Codec>,
                            contentType: Value)
    ensures !BodyToSend(env, verb, parser, serializers, contentType, Undefined).Undefined?
    ensures var c := SerializerFor(parser, serializers, contentType);
      !(c.Some? && c.value.Custom?) ==> BodyToSend(env, verb, parser, serializers, contentType, Undefined) == Null
  {
  }

  /** With the default serializers, a Content-Type whose part before the
      first ";" is the JSON type sends the stringified body, and one whose
      part is the form type sends the form encoding. */
  lemma JsonSerializerChoice(env: Env, verb: string, ct: string, v: Value)
    requires verb != "GET" && verb != "HEAD" && IsObject(v) && !v.Host? && ct != ""
    requires Split(ct, ';')[0] == JsonMime
    ensures BodyToSend(env, verb, None, DefaultSerializers, Str(ct), v) == Str(env.stringify(v))
  {
    assert SerializerFor(None, DefaultSerializers, Str(ct)) == Some(JsonCodec);
  }

  lemma FormSerializerChoice(env: Env, verb: string, ct: string, v: Value)
    requires verb != "GET" && verb != "HEAD" && IsObject(v) && !v.Host? && ct != ""
    requires Split(ct, ';')[0] == FormMime
    ensures BodyToSend(env, verb, None, DefaultSerializers, Str(ct), v) == Serialized(v)
  {
    assert SerializerFor(None, DefaultSerializers, Str(ct)) == Some(FormCodec);
  }

  /** A type that is not registered but looks like JSON (a `+json` suffix,
      say) falls back to the JSON serializer; one that does not is sent
      unserialized. */
  lemma JsonLikeSerializerChoice(ct: string)
    requires ct != "" && Split(ct, ';')[0] !in DefaultSerializers
    ensures SerializerFor(None, DefaultSerializers, Str(ct)) == if IsJSON(ct) then Some(JsonCodec) else None
  {
  }

  /** The two registered MIME types carry no parameters. */
  lemma PlainMimeTypes()
    ensures Split(JsonMime, ';') == [JsonMime] && Split(FormMime, ';') == [FormMime]
    ensures Type(JsonMime) == JsonMime && Type(FormMime) == FormMime
  {
    assert ';' !in JsonMime && ';' !in FormMime;
  }

  /** The request's own serializer wins over the registry. */
  lemma OwnSerializerFirst(env: Env, verb: string, c: Codec, serializers: map<string, Codec>,
                           contentType: Value, payload: Value)
    requires verb != "GET" && verb != "HEAD" && !payload.Str? && !payload.Host?
    requires !SerializeWith(env, c, payload).Undefined?
    ensures BodyToSend(env, verb, Some(c), serializers, contentType, payload) == SerializeWith(env, c, payload)
  {
  }

  /** Posting an object to a fresh request: it goes out as JSON, with the
      JSON Content-Type as its only header. */
  lemma PostObjectAsJson(env: Env, fs: Fields<Value>)
    ensures var s := SendTo(DefaultTypes, EmptyDraft, Obj(fs));
      && BodyToSend(env, "POST", None, DefaultSerializers, ContentTypeOf(s.lowerHeader), Payload(None, s.data))
         == Str(env.stringify(Obj(fs)))
      && Present(s.header) == [("Content-Type", Str(JsonMime))]
  {
    SendObjectDefaultsToJson(DefaultTypes, EmptyDraft, fs);
    DefaultResolve("json");
    PlainMimeTypes();
    JsonSerializerChoice(env, "POST", JsonMime, Obj(fs));
    var h: Fields<Value> := [("Content-Type", Str(JsonMime))];
    assert h[..0] == [];
  }

  /** A query object on a URL without a query: the URL gains "?" and the
      form encoding of the properties that are neither null nor undefined. */
  lemma {:induction false} QueryObjectOnUrl(url: string, fs: Fields<Value>)
    requires '?' !in url
    requires forall i :: 0 <= i < |fs| ==> Flat(fs[i].1)
    requires Present(fs) != []
    ensures WithQuery(url, QueryString([Serialized(Obj(fs))])) == url + "?" + Join(PairsOf(Present(fs)), "&")
  {
    var q := Join(PairsOf(Present(fs)), "&");
    SerializedFlat(fs);
    SerializedNonEmpty(fs);
    assert QueryString([Str(q)]) == q by {
      assert ElementStrings([Str(q)]) == [q];
    }
  }

  /** What `end` sets on the transport and sends: the method and final URL,
      the timeout when truthy, the credentials when both are truthy, the
      certificate flag when truthy, the CORS flag, the header fields in order
      and the body. */
  datatype Dispatch = Dispatch(
    verb: string, url: string, timeout: Option<Value>, credentials: Option<(string, string)>,
    validatesSecureCertificate: Option<Value>, withCredentials: bool,
    headers: Fields<Value>, body: Value)

  /** `if (this.username && this.password)`. */
  function Credentials(username: Option<string>, password: Option<string>): Option<(string, string)>
  {
    if username.Some? && username.value != "" && password.Some? && password.value != ""
    then Some((username.value, password.value)) else None
  }

  /** What sending a header value makes of it: null and undefined are
      dropped. */
  function Kept(v: Option<Value>): Option<Value>
  {
    match v
    case Some(x) => if IsNullish(x) then None else Some(x)
    case None => None
  }

  /** The lookup in a one-property object. */
  lemma GetSingle(p: (string, Value), k: string)
    ensures Get([p], k) == if p.0 == k then Some(p.1) else None
  {
    assert [p][1..] == [];
  }

  /** The induction step of `SentHeaders`: the last header is appended to
      what was sent for the others. */
  lemma SentHeadersStep(init: Fields<Value>, last: (string, Value), k: string)
    requires last.0 !in Keys(init)
    requires Get(Present(init), k) == Kept(Get(init, k))
    ensures Get(Present(init + [last]), k) == Kept(Get(init + [last], k))
  {
    var header := init + [last];
    assert header[..|header| - 1] == init && header[|header| - 1] == last;
    var p := Present(init);
    GetAppend(init, [last], k);
    GetSingle(last, k);
    GetFound(init, k);
    GetFound(p, k);
    if !IsNullish(last.1) {
      assert Present(header) == p + [last];
      GetAppend(p, [last], k);
      if k in Keys(p) {
        PresentKeys(init, k);
      }
    } else {
      assert Present(header) == p + [];
      assert p + [] == p;
      if k !in Keys(init) {
        assert Get(header, k) == Get([last], k);
      }
    }
  }

  /** A header whose value is null or undefined is skipped; every other one
      is sent once, in the order it was first set, with its last value. */
  lemma {:induction false} SentHeaders(header: Fields<Value>, k: string)
    requires DistinctKeys(header)
    ensures Get(Present(header), k) == Kept(Get(header, k))
  {
    if header != [] {
      var init, last := header[..|header| - 1], header[|header| - 1];
      assert header == init + [last];
      assert DistinctKeys(init);
      LastKeyIsNew(header);
      SentHeaders(init, k);
      SentHeadersStep(init, last, k);
    }
  }

  // ---------------------------------------------------------------------
  // What the callback receives

  /** The error the callback receives: a response the parser could not
      read (with what it threw, the raw text when non-empty and the status
      when non-zero), a status outside 2xx (with the status text, or a stock
      message when there is none), or the transport's own error. */
  datatype CallbackError =
    | ParseError(original: string, rawResponse: Option<string>, statusCode: Option<int>)
    | HttpError(message: string, status: int)
    | TransportError(error: Value)

  function ParseFailure(original: string, t: Transport): CallbackError
  {
    ParseError(original, if t.text != "" then Some(t.text) else None, if t.status != 0 then Some(t.status) else None)
  }

  /** The error `onload` passes for the response `n` built from `t`. */
  function LoadError(n: Result<ResponseView>, t: Transport): Option<CallbackError>
  {
    match n
    case Err(e) => Some(ParseFailure(e, t))
    case Ok(v) =>
      if 200 <= v.props.status < 300 then None
      else Some(HttpError(if v.statusText != "" then v.statusText else "Unsuccessful HTTP response", v.props.status))
  }

  /** The error `onerror` passes when the transport reports `error`. */
  function TransportFailure(n: Result<ResponseView>, t: Transport, error: Value): CallbackError
  {
    match n
    case Err(e) => ParseFailure(e, t)
    case Ok(_) => TransportError(error)
  }

  /** `onload` reports success exactly when the response is built and its
      `ok` flag is set; a failed status carries the transport's status, and a
      4xx or 5xx response carries its own error. */
  lemma LoadOutcome(env: Env, parsers: map<string, Codec>, verb: string, url: string, t: Transport)
    ensures var n := Normalised(env, parsers, verb, url, t);
      && (LoadError(n, t).None? <==> n.Ok? && n.value.props.ok)
      && (LoadError(n, t).Some? && LoadError(n, t).value.HttpError? ==>
            n.Ok? && LoadError(n, t).value.status == t.status && LoadError(n, t).value.message != "")
      && (n.Ok? && 400 <= t.status < 600 ==>
            LoadError(n, t) == Some(HttpError(if t.statusText != "" then t.statusText else "Unsuccessful HTTP response", t.status))
            && n.value.props.error == Some(ResponseError(t.status, verb, url)))
  {
    StatusClassFlags(t.status, verb, url);
    StatusError(t.status, verb, url);
  }

  /** A response the parser cannot read gives the same error on both paths,
      with the raw text exactly when there is some and the status exactly
      when it is not zero. */
  lemma ParseFailureReported(env: Env, parsers: map<string, Codec>, verb: string, url: string, t: Transport,
                             error: Value)
    requires Normalised(env, parsers, verb, url, t).Err?
    ensures var n := Normalised(env, parsers, verb, url, t);
      && Some(TransportFailure(n, t, error)) == LoadError(n, t)
      && TransportFailure(n, t, error).original == n.message
      && (TransportFailure(n, t, error).rawResponse == Some(t.text) <==> t.text != "")
      && (TransportFailure(n, t, error).statusCode == Some(t.status) <==> t.status != 0)
  {
  }

  /** A HEAD response is never a parse failure. */
  lemma HeadNeverParseFails(env: Env, parsers: map<string, Codec>, url: string, t: Transport)
    ensures Normalised(env, parsers, "HEAD", url, t).Ok?
    ensures Normalised(env, parsers, "HEAD", url, t).value.body == Null
  {
  }

  /** A 201 with a JSON body the JSON parser reads: no error, `ok` set, and
      the parsed value as the body. */
  lemma CreatedJson(env: Env, verb: string, url: string, t: Transport)
    requires t.status == 201 && t.contentType == Some(JsonMime) && t.text != "" && verb != "HEAD"
    requires env.jsonParse(t.text).Ok?
    ensures var n := Normalised(env, DefaultParsers, verb, url, t);
      && n.Ok? && n.value.props.ok && n.value.props.status == 201
      && n.value.body == env.jsonParse(t.text).value
      && LoadError(n, t).None?
  {
    var v := Built(verb, url, t);
    assert v.mediaType == JsonMime by {
      BuiltMediaType(verb, url, t);
      PlainMimeTypes();
    }
    assert BodyOf(env, DefaultParsers, verb, JsonMime, t.text) == env.jsonParse(t.text) by {
      assert JsonMime in DefaultParsers && DefaultParsers[JsonMime] == JsonCodec;
    }
    assert v.props == StatusPropertiesOf(201, verb, url) by {
      BuiltFields(verb, url, t);
    }
    StatusClassFlags(201, verb, url);
  }

  // ---------------------------------------------------------------------
  // The request object

  class Request {
    var verb: string
    var url: string
    var timeout: Value
    var query: seq<Value>
    var header: Fields<Value>
    var lowerHeader: map<string, Value>
    var data: Value
    var formData: Option<Fields<Value>>
    var parser: Option<Codec>
    var username: Option<string>
    var password: Option<string>
    var withCredentials: bool
    var validatesSecureCertificate: Value

    /** `new Request(method, url)`: no timeout, query, headers or body. */
    constructor (verb0: string, url0: string)
      ensures verb == verb0 && url == url0 && timeout == Undefined && query == []
      ensures header == [] && lowerHeader == map[] && data == Undefined && formData == None
      ensures parser == None && username == None && password == None
      ensures !withCredentials && validatesSecureCertificate == Undefined
    {
      verb := verb0;
      url := url0;
      timeout := Undefined;
      query := [];
      header := [];
      lowerHeader := map[];
      data := Undefined;
      formData := None;
      parser := None;
      username := None;
      password := None;
      withCredentials := false;
      validatesSecureCertificate := Undefined;
    }

    /** `set(field, val)`: a name is assigned in both header maps; an object
        has each of its properties set in turn. */
    method Set(field: Value, val: Value)
      requires field.Str? || IsObject(field)
      modifies this`header, this`lowerHeader
      ensures header == PutAll(old(header), Assignments(field, val))
      ensures lowerHeader == Lowered(old(lowerHeader), Assignments(field, val))
      decreases if field.Str? then 0 else 1
    {
      if IsObject(field) {
        var fs := Enumerate(field);
        var i := 0;
        while i < |fs|
          invariant 0 <= i <= |fs|
          invariant header == PutAll(old(header), fs[..i])
          invariant lowerHeader == Lowered(old(lowerHeader), fs[..i])
        {
          Set(Str(fs[i].0), fs[i].1);
          PutAllPrefix(old(header), fs, i);
          LoweredPrefix(old(lowerHeader), fs, i);
          i := i + 1;
        }
        assert fs[..i] == fs;
        return;
      }
      lowerHeader := lowerHeader[Lower(field.s) := val];
      header := Put(header, field.s, val);
    }

    /** `get(field)`: the header under any spelling of its name. */
    function Get(field: string): Value
      reads this
    {
      HeaderGet(lowerHeader, field)
    }

    /** `type(t)`: the Content-Type, resolved through `types`. */
    method Type(types: map<string, string>, t: string)
      modifies this`header, this`lowerHeader
      ensures header == Put(old(header), "Content-Type", Str(Resolve(types, t)))
      ensures lowerHeader == old(lowerHeader)["content-type" := Str(Resolve(types, t))]
    {
      CanonicalNames();
      Set(Str("Content-Type"), Str(Resolve(types, t)));
    }

    /** `accept(t)`: the Accept header, resolved through `types`. */
    method Accept(types: map<string, string>, t: string)
      modifies this`header, this`lowerHeader
      ensures header == Put(old(header), "Accept", Str(Resolve(types, t)))
      ensures lowerHeader == old(lowerHeader)["accept" := Str(Resolve(types, t))]
    {
      CanonicalNames();
      Set(Str("Accept"), Str(Resolve(types, t)));
    }

    /** `query(val)`: a string as it is, anything else through
        `serializeObject`, appended only when truthy. */
    method Query(val: Value)
      modifies this`query
      ensures var q := Serialized(val);
        query == old(query) + (if Truthy(q) then [q] else [])
    {
      var v := val;
      if !v.Str? {
        v := SerializeObject(v);
      }
      if Truthy(v) {
        query := query + [v];
      }
    }

    /** `timeout(ms)`. */
    method Timeout(ms: Value)
      modifies this`timeout
      ensures timeout == ms
    {
      timeout := ms;
    }

    /** `auth(user, pass, options)`: with no options, or options of type
        "basic", an Authorization header with the base 64 form of
        `user:pass`; with type "auto", the credentials stored for the
        transport; with anything else, no change. */
    method Auth(user: string, pass: string, options: Value)
      modifies this`header, this`lowerHeader, this`username, this`password
      ensures var kind := AuthKind(options);
        && (kind == Str("basic") ==>
              var cred := Str("Basic " + Base64.Encode(Uri.Utf8Encode(user + ":" + pass)));
              header == Put(old(header), "Authorization", cred)
              && lowerHeader == old(lowerHeader)["authorization" := cred]
              && username == old(username) && password == old(password))
        && (kind == Str("auto") ==>
              header == old(header) && lowerHeader == old(lowerHeader)
              && username == Some(user) && password == Some(pass))
        && (kind != Str("basic") && kind != Str("auto") ==>
              header == old(header) && lowerHeader == old(lowerHeader)
              && username == old(username) && password == old(password))
    {
      var kind := AuthKind(options);
      if kind == Str("basic") {
        CanonicalNames();
        var str := Base64.Encode(Uri.Utf8Encode(user + ":" + pass));
        Set(Str("Authorization"), Str("Basic " + str));
      } else if kind == Str("auto") {
        username := Some(user);
        password := Some(pass);
      }
    }

    /** `attach(field, file)`: the file queued under `field`. */
    method Attach(field: string, file: Value)
      modifies this`formData
      ensures formData == Some(Put(if old(formData).Some? then old(formData).value else [], field, file))
    {
      var fd := if formData.Some? then formData.value else [];
      formData := Some(Put(fd, field, file));
    }

    /** `field(name, val)`: a form field; a later value for the same name
        replaces the earlier one. */
    method Field(name: string, val: Value)
      modifies this`formData
      ensures formData == Some(Put(if old(formData).Some? then old(formData).value else [], name, val))
    {
      var fd := if formData.Some? then formData.value else [];
      formData := Some(Put(fd, name, val));
    }

    /** `send(data)`: the body and Content-Type as `SendTo` describes. */
    method Send(types: map<string, string>, d: Value)
      modifies this`data, this`header, this`lowerHeader
      ensures var s := SendTo(types, Draft(old(data), old(header), old(lowerHeader)), d);
        data == s.data && header == s.header && lowerHeader == s.lowerHeader
    {
      var obj := IsObject(d);
      var t := ContentTypeOf(lowerHeader);
      if obj && IsObject(data) {
        data := Merged(data, d);
      } else if d.Str? {
        if !Truthy(t) {
          Type(types, "form");
        }
        t := ContentTypeOf(lowerHeader);
        if IsFormType(t) {
          data := if Truthy(data) then Str(ToStr(data) + "&" + d.s) else d;
        } else {
          data := Str((if Truthy(data) then ToStr(data) else "") + d.s);
        }
      } else {
        data := d;
      }
      if !obj || d.Host? {
        return;
      }
      if !Truthy(t) {
        Type(types, "json");
      }
    }

    /** `withCredentials()`. */
    method WithCredentials()
      modifies this`withCredentials
      ensures withCredentials
    {
      withCredentials := true;
    }

    /** `validatesSecureCertificate(value)`: stores `value || true`. */
    method ValidatesSecureCertificate(value: Value)
      modifies this`validatesSecureCertificate
      ensures validatesSecureCertificate == CertificateFlag(value)
    {
      validatesSecureCertificate := if Truthy(value) then value else Bool(true);
    }

    /** `end()` up to `xhr.send`: the query is appended to the URL, and the
        transport is handed the settings, the non-null headers and the body. */
    method End(env: Env, serializers: map<string, Codec>) returns (d: Dispatch)
      modifies this`url
      ensures url == WithQuery(old(url), QueryString(query))
      ensures d.verb == verb && d.url == url
      ensures d.timeout == (if Truthy(timeout) then Some(timeout) else None)
      ensures d.credentials == Credentials(username, password)
      ensures d.validatesSecureCertificate
           == (if Truthy(validatesSecureCertificate) then Some(validatesSecureCertificate) else None)
      ensures d.withCredentials == withCredentials
      ensures d.headers == Present(header)
      ensures d.body == BodyToSend(env, verb, parser, serializers, ContentTypeOf(lowerHeader), Payload(formData, data))
    {
      AppendQuery();
      var t := if Truthy(timeout) then Some(timeout) else None;
      var cred := Credentials(username, password);
      var cert := if Truthy(validatesSecureCertificate) then Some(validatesSecureCertificate) else None;
      var body := SerializedBody(env, verb, parser, serializers, ContentTypeOf(lowerHeader), Payload(formData, data));
      var headers := SendableHeaders(header);
      d := Dispatch(verb, url, t, cred, cert, withCredentials, headers, body);
    }

    /** The query step of `end`: the joined fragments, when there are any,
        go after the URL. */
    method AppendQuery()
      modifies this`url
      ensures url == WithQuery(old(url), QueryString(query))
    {
      var q := Join(ElementStrings(query), "&");
      if q != "" {
        var s := SerializeObject(Str(q));
        url := url + (if IndexOf(url, '?') != -1 then "&" else "?") + ToStr(s);
      }
    }

    /** `xhr.onload`: the response, or the error the callback receives. */
    method OnLoad(env: Env, parsers: map<string, Codec>, t: Transport)
      returns (err: Option<CallbackError>, res: Option<Response>)
      ensures err == LoadError(Normalised(env, parsers, verb, url, t), t)
      ensures res.Some? <==> Normalised(env, parsers, verb, url, t).Ok?
      ensures res.Some? ==> fresh(res.value) && res.value.View() == Normalised(env, parsers, verb, url, t).value
    {
      var r := NewResponse(env, parsers, verb, url, t);
      if r.Err? {
        return Some(ParseFailure(r.message, t)), None;
      }
      var response := r.value;
      res := Some(response);
      if 200 <= response.props.status < 300 {
        err := None;
      } else {
        err := Some(HttpError(if response.statusText != "" then response.statusText else "Unsuccessful HTTP response",
                              response.props.status));
      }
    }

    /** `xhr.onerror`: the transport's error, unless the response cannot be
        parsed. */
    method OnError(env: Env, parsers: map<string, Codec>, t: Transport, error: Value)
      returns (err: CallbackError, res: Option<Response>)
      ensures err == TransportFailure(Normalised(env, parsers, verb, url, t), t, error)
      ensures res.Some? <==> Normalised(env, parsers, verb, url, t).Ok?
      ensures res.Some? ==> fresh(res.value) && res.value.View() == Normalised(env, parsers, verb, url, t).value
    {
      var r := NewResponse(env, parsers, verb, url, t);
      if r.Err? {
        return ParseFailure(r.message, t), None;
      }
      err := TransportError(error);
      res := Some(r.value);
    }
  }

  /** `options.type`, where no options (a falsy value) means "basic". */
  function AuthKind(options: Value): Value
  {
    if !Truthy(options) then Str("basic")
    else if options.Obj? then (match Get(options.fields, "type") case Some(v) => v case None => Undefined)
    else Undefined
  }

  /** `value || true`. */
  function CertificateFlag(value: Value): Value
  {
    if Truthy(value) then value else Bool(true)
  }

  /** Certificate validation cannot be switched off: whatever is passed, the
      stored flag is truthy, so `end` always sets it, and `false` is stored
      as `true`. */
  lemma CertificateAlwaysValidated(value: Value)
    ensures Truthy(CertificateFlag(value))
    ensures CertificateFlag(Bool(false)) == Bool(true)
    ensures CertificateFlag(Undefined) == Bool(true)
  {
  }

  /** The body step of `end`: the payload, run through the chosen serializer
      when the method and the payload call for it; undefined is sent as null. */
  method SerializedBody(env: Env, verb: string, parser: Option<Codec>, serializers: map<string, Codec>,
                        contentType: Value, payload: Value) returns (body: Value)
    ensures body == BodyToSend(env, verb, parser, serializers, contentType, payload)
  {
    body := payload;
    if verb != "GET" && verb != "HEAD" && !payload.Str? && !payload.Host? {
      var f := SerializerFor(parser, serializers, contentType);
      if f.Some? {
        body := SerializeWith(env, f.value, payload);
      }
    }
    if body.Undefined? {
      body := Null;
    }
  }

  /** The header loop of `end`: every field whose value is neither null nor
      undefined, in order. */
  method SendableHeaders(header: Fields<Value>) returns (out: Fields<Value>)
    ensures out == Present(header)
  {
    out := [];
    var i := 0;
    while i < |header|
      invariant 0 <= i <= |header|
      invariant out == Present(header[..i])
    {
      assert header[..i + 1][..i] == header[..i];
      if !IsNullish(header[i].1) {
        out := out + [header[i]];
      }
      i := i + 1;
    }
    assert header[..i] == header;
  }
}
