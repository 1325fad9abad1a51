/** The form codec and the default registries of `src/globals.js`:
    `serializeObject` flattens an object into `application/x-www-form-urlencoded`
    text, `parseString` reads such text back into an object, and the `types`,
    `serialize` and `parse` tables name the codec for a MIME type.  The tables
    are values here (callers pass them explicitly); a codec is a tag, and the
    JSON functions and caller-registered codecs are supplied from outside. */
module Globals {
  import opened Wrappers
  import opened Strings
  import opened Fields
  import opened Js
  import Uri
  import opened Utils

  // ---------------------------------------------------------------------
  // Serialising

  /** `encodeURIComponent(key) + '=' + encodeURIComponent(val)`. */
  function EncodedPair(key: string, val: Value): string
  {
    Uri.Encode(key) + "=" + Uri.Encode(ToStr(val))
  }

  /** The pairs `pushEncodedKeyValuePair(pairs, key, val)` pushes: one per
      element of an array value, recursively, and one otherwise. */
  function EncodedPairs(key: string, val: Value): seq<string>
    decreases val, 1
  {
    if val.Arr? then EncodedPairsOf(key, val.items) else [EncodedPair(key, val)]
  }

  function EncodedPairsOf(key: string, items: seq<Value>): seq<string>
    decreases items, 0
  {
    if items == [] then []
    else EncodedPairsOf(key, items[..|items| - 1]) + EncodedPairs(key, items[|items| - 1])
  }

  /** The pairs of every property whose value is neither null nor undefined,
      in the order of the property list. */
  function ObjectPairs(fs: Fields<Value>): seq<string>
  {
    if fs == [] then []
    else
      var (key, val) := fs[|fs| - 1];
      ObjectPairs(fs[..|fs| - 1]) + (if IsNullish(val) then [] else EncodedPairs(key, val))
  }

  /** What `serializeObject(obj)` returns. */
  function Serialized(obj: Value): Value
  {
    if !IsObject(obj) then obj else Str(Join(ObjectPairs(Enumerate(obj)), "&"))
  }

  /** `pushEncodedKeyValuePair(pairs, key, val)`: the array `pairs` grows by
      the pairs of `val`; the updated array is returned. */
  method PushEncodedKeyValuePair(pairs: seq<string>, key: string, val: Value)
    returns (out: seq<string>)
    ensures out == pairs + EncodedPairs(key, val)
    decreases val
  {
    if val.Arr? {
      var items := val.items;
      out := pairs;
      var i := 0;
      while i < |items|
        invariant 0 <= i <= |items|
        invariant out == pairs + EncodedPairsOf(key, items[..i])
      {
        assert items[..i + 1][..i] == items[..i];
        out := PushEncodedKeyValuePair(out, key, items[i]);
        i := i + 1;
      }
      assert items[..i] == items;
      return;
    }
    out := pairs + [Uri.Encode(key) + "=" + Uri.Encode(ToStr(val))];
  }

  /** `serializeObject(obj)`: a non-object is returned as it is; an object
      becomes its pairs joined by `&`. */
  method SerializeObject(obj: Value) returns (r: Value)
    ensures r == Serialized(obj)
    ensures !IsObject(obj) ==> r == obj
    ensures IsObject(obj) ==> r.Str?
  {
    if !IsObject(obj) {
      return obj;
    }
    var props := Enumerate(obj);
    var pairs := [];
    var i := 0;
    while i < |props|
      invariant 0 <= i <= |props|
      invariant pairs == ObjectPairs(props[..i])
    {
      var (key, val) := props[i];
      assert props[..i + 1][..i] == props[..i];
      if !IsNullish(val) {
        pairs := PushEncodedKeyValuePair(pairs, key, val);
      }
      i := i + 1;
    }
    assert props[..i] == props;
    r := Str(Join(pairs, "&"));
  }

  // ---------------------------------------------------------------------
  // Parsing

  /** One `key=value` pair decoded: the key is the text before the first
      `=`, the value the text between the first and a second `=`; with no
      `=`, the value is `String(undefined)`.  None when a part is malformed
      (`decodeURIComponent` throws). */
  function ParsedPair(pair: string): Option<(string, string)>
  {
    var parts := Split(pair, '=');
    var key := Uri.Decode(parts[0]);
    var val := Uri.Decode(if |parts| > 1 then parts[1] else "undefined");
    if key.None? || val.None? then None else Some((key.value, val.value))
  }

  /** The object the pairs fill in turn; the first malformed pair aborts. */
  function ParsedPairs(pairs: seq<string>): Result<Fields<string>>
  {
    if pairs == [] then Ok([])
    else
      match ParsedPairs(pairs[..|pairs| - 1])
      case Err(e) => Err(e)
      case Ok(obj) =>
        match ParsedPair(pairs[|pairs| - 1])
        case None => Err("URIError: URI malformed")
        case Some((k, v)) => Ok(Put(obj, k, v))
  }

  /** What `parseString(str)` returns, or the URIError it throws. */
  function ParsedString(str: string): Result<Fields<string>>
  {
    ParsedPairs(Split(str, '&'))
  }

  /** `parseString(str)`. */
  method ParseString(str: string) returns (r: Result<Fields<string>>)
    ensures r == ParsedString(str)
  {
    var obj: Fields<string> := [];
    var pairs := Split(str, '&');
    var i := 0;
    while i < |pairs|
      invariant 0 <= i <= |pairs|
      invariant ParsedPairs(pairs[..i]) == Ok(obj)
    {
      var pair := pairs[i];
      var parts := Split(pair, '=');
      var key := Uri.Decode(parts[0]);
      var val := Uri.Decode(if |parts| > 1 then parts[1] else "undefined");
      ParsedPairsStep(pairs, i, obj);
      if key.None? || val.None? {
        ParsedPairsAbort(pairs, i + 1);
        return Err("URIError: URI malformed");
      }
      obj := Put(obj, key.value, val.value);
      i := i + 1;
    }
    assert pairs[..i] == pairs;
    r := Ok(obj);
  }

  lemma ParsedPairsStep(pairs: seq<string>, i: nat, obj: Fields<string>)
    requires i < |pairs| && ParsedPairs(pairs[..i]) == Ok(obj)
    ensures ParsedPairs(pairs[..i + 1])
         == match ParsedPair(pairs[i])
            case None => Err("URIError: URI malformed")
            case Some((k, v)) => Ok(Put(obj, k, v))
  {
    var next := pairs[..i + 1];
    assert next[..i] == pairs[..i] && next[|next| - 1] == pairs[i];
  }

  /** Once a prefix fails, the whole list fails. */
  lemma {:induction false} ParsedPairsAbort(pairs: seq<string>, n: nat)
    requires n <= |pairs| && ParsedPairs(pairs[..n]).Err?
    ensures ParsedPairs(pairs) == Err("URIError: URI malformed")
    decreases |pairs| - n
  {
    if n == |pairs| {
      assert pairs[..n] == pairs;
      ParsedPairsError(pairs);
    } else {
      var next := pairs[..n + 1];
      assert next[..n] == pairs[..n];
      ParsedPairsAbort(pairs, n + 1);
    }
  }

  /** The only error is the URIError. */
  lemma {:induction false} ParsedPairsError(pairs: seq<string>)
    ensures ParsedPairs(pairs).Err? ==> ParsedPairs(pairs) == Err("URIError: URI malformed")
  {
    if pairs != [] {
      ParsedPairsError(pairs[..|pairs| - 1]);
    }
  }

  // ---------------------------------------------------------------------
  // What the codec promises

  /** A value `for…in` would not expand further: not an array. */
  predicate Flat(v: Value)
  {
    !v.Arr?
  }

  /** The properties `serializeObject` keeps: those that are neither null
      nor undefined, in order. */
  function Present(fs: Fields<Value>): (r: Fields<Value>)
    ensures |r| <= |fs|
  {
    if fs == [] then []
    else Present(fs[..|fs| - 1]) + (if IsNullish(fs[|fs| - 1].1) then [] else [fs[|fs| - 1]])
  }

  /** Every property with its value as a string. */
  function Stringified(fs: Fields<Value>): (r: Fields<string>)
    ensures |r| == |fs|
    ensures forall i :: 0 <= i < |fs| ==> r[i] == (fs[i].0, ToStr(fs[i].1))
  {
    if fs == [] then [] else Stringified(fs[..|fs| - 1]) + [(fs[|fs| - 1].0, ToStr(fs[|fs| - 1].1))]
  }

  /** One encoded pair per property, in order. */
  function PairsOf(fs: Fields<Value>): (r: seq<string>)
    ensures |r| == |fs|
    ensures forall i :: 0 <= i < |fs| ==> r[i] == EncodedPair(fs[i].0, fs[i].1)
  {
    if fs == [] then [] else PairsOf(fs[..|fs| - 1]) + [EncodedPair(fs[|fs| - 1].0, fs[|fs| - 1].1)]
  }

  /** Serialising a flat object writes `key=value` for exactly the properties
      that are neither null nor undefined, in the order they are visited. */
  lemma {:induction false} ObjectPairsFlat(fs: Fields<Value>)
    requires forall i :: 0 <= i < |fs| ==> Flat(fs[i].1)
    ensures ObjectPairs(fs) == PairsOf(Present(fs))
  {
    if fs != [] {
      var init, last := fs[..|fs| - 1], fs[|fs| - 1];
      ObjectPairsFlat(init);
      if !IsNullish(last.1) {
        var p := Present(init) + [last];
        assert p[..|p| - 1] == Present(init);
      }
    }
  }

  /** An array of flat elements expands into one pair per element, all under
      the same key and in element order; null and undefined elements are not
      dropped (they are written as "null" and "undefined"). */
  lemma {:induction false} EncodedPairsArray(key: string, items: seq<Value>)
    requires forall i :: 0 <= i < |items| ==> Flat(items[i])
    ensures |EncodedPairs(key, Arr(items))| == |items|
    ensures forall i :: 0 <= i < |items| ==> EncodedPairs(key, Arr(items))[i] == EncodedPair(key, items[i])
  {
    EncodedPairsFlat(key, items);
  }

  lemma {:induction false} EncodedPairsFlat(key: string, items: seq<Value>)
    requires forall i :: 0 <= i < |items| ==> Flat(items[i])
    ensures EncodedPairsOf(key, items) == seq(|items|, i requires 0 <= i < |items| => EncodedPair(key, items[i]))
  {
    if items != [] {
      var init, last := items[..|items| - 1], items[|items| - 1];
      EncodedPairsFlat(key, init);
      assert EncodedPairs(key, last) == [EncodedPair(key, last)];
      var r := EncodedPairsOf(key, items);
      assert |r| == |items|;
      forall i | 0 <= i < |items| ensures r[i] == EncodedPair(key, items[i]) {
        if i < |init| {
          assert r[i] == EncodedPairsOf(key, init)[i];
        }
      }
    }
  }

  /** Only properties of the object survive the filter. */
  lemma {:induction false} PresentKeys(fs: Fields<Value>, k: string)
    requires k in Keys(Present(fs))
    ensures k in Keys(fs)
  {
    if fs != [] {
      var init, last := fs[..|fs| - 1], fs[|fs| - 1];
      KeysInit(fs);
      if k != last.0 {
        var p := Present(init);
        if IsNullish(last.1) {
          assert Present(fs) == p + [];
          assert p + [] == p;
        } else {
          var q := p + [last];
          assert Present(fs) == q;
          KeysInit(q);
          assert q[..|q| - 1] == p;
        }
        PresentKeys(init, k);
      }
    }
  }

  lemma {:induction false} PresentDistinct(fs: Fields<Value>)
    requires DistinctKeys(fs)
    ensures DistinctKeys(Present(fs))
  {
    if fs != [] {
      var init, last := fs[..|fs| - 1], fs[|fs| - 1];
      PresentDistinct(init);
      if !IsNullish(last.1) {
        var p := Present(init);
        LastKeyIsNew(fs);
        forall i | 0 <= i < |p| ensures p[i].0 != last.0 {
          assert Keys(p)[i] == p[i].0;
          if p[i].0 == last.0 {
            PresentKeys(init, last.0);
          }
        }
      }
    }
  }

  lemma PresentNoNullish(fs: Fields<Value>)
    ensures forall i :: 0 <= i < |Present(fs)| ==> !IsNullish(Present(fs)[i].1)
  {
    if fs != [] {
      PresentNoNullish(fs[..|fs| - 1]);
    }
  }

  /** A single encoded pair decodes to its key and the string of its value. */
  lemma ParsedEncodedPair(key: string, val: Value)
    ensures ParsedPair(EncodedPair(key, val)) == Some((key, ToStr(val)))
  {
    var a, b := Uri.Encode(key), Uri.Encode(ToStr(val));
    Uri.EncodeAvoidsSeparators(key);
    Uri.EncodeAvoidsSeparators(ToStr(val));
    assert Join([a, b], "=") == a + "=" + b;
    SplitJoin([a, b], '=');
    Uri.DecodeEncode(key);
    Uri.DecodeEncode(ToStr(val));
  }

  lemma PairsNoAmpersand(fs: Fields<Value>)
    ensures forall i :: 0 <= i < |PairsOf(fs)| ==> '&' !in PairsOf(fs)[i]
  {
    forall i | 0 <= i < |PairsOf(fs)| ensures '&' !in PairsOf(fs)[i] {
      Uri.EncodeAvoidsSeparators(fs[i].0);
      Uri.EncodeAvoidsSeparators(ToStr(fs[i].1));
    }
  }

  /** Parsing the pairs of an object with distinct keys gives the object back,
      every value as a string. */
  lemma {:induction false} ParsedPairsOf(fs: Fields<Value>)
    requires DistinctKeys(fs)
    ensures ParsedPairs(PairsOf(fs)) == Ok(Stringified(fs))
  {
    if fs != [] {
      var init, last := fs[..|fs| - 1], fs[|fs| - 1];
      var ps := PairsOf(fs);
      assert ps[..|ps| - 1] == PairsOf(init);
      ParsedPairsOf(init);
      ParsedEncodedPair(last.0, last.1);
      LastKeyIsNew(fs);
      var st := Stringified(init);
      assert Keys(st) == Keys(init);
      PutKeys(st, last.0, ToStr(last.1));
    }
  }

  /** The round trip: `parseString(serializeObject(obj))` gives, for an object
      with flat values and at least one that is neither null nor undefined,
      exactly those properties, in order, with their values as strings. */
  lemma FormRoundTrip(fs: Fields<Value>)
    requires DistinctKeys(fs)
    requires forall i :: 0 <= i < |fs| ==> Flat(fs[i].1)
    requires Present(fs) != []
    ensures Serialized(Obj(fs)).Str?
    ensures ParsedString(Serialized(Obj(fs)).s) == Ok(Stringified(Present(fs)))
  {
    var p := Present(fs);
    SerializedFlat(fs);
    PresentDistinct(fs);
    PairsNoAmpersand(p);
    SplitJoin(PairsOf(p), '&');
    ParsedPairsOf(p);
  }

  lemma {:induction false} SerializedFlat(fs: Fields<Value>)
    requires forall i :: 0 <= i < |fs| ==> Flat(fs[i].1)
    ensures Serialized(Obj(fs)) == Str(Join(PairsOf(Present(fs)), "&"))
  {
    assert IsObject(Obj(fs)) && Enumerate(Obj(fs)) == fs;
    ObjectPairsFlat(fs);
  }

  /** An object with a property that is neither null nor undefined does not
      serialise to the empty string. */
  lemma {:induction false} SerializedNonEmpty(fs: Fields<Value>)
    requires forall i :: 0 <= i < |fs| ==> Flat(fs[i].1)
    requires Present(fs) != []
    ensures Serialized(Obj(fs)).Str? && Serialized(Obj(fs)).s != ""
  {
    SerializedFlat(fs);
    var p := PairsOf(Present(fs));
    assert |p[0]| >= 1;
    if |p| > 1 {
      assert Join(p, "&") == p[0] + "&" + Join(p[1..], "&");
    }
  }

  /** The empty object serialises to "", which parses to one property: the
      empty key with the value "undefined". */
  lemma EmptyObject()
    ensures Serialized(Obj([])) == Str("")
    ensures ParsedString("") == Ok([("", "undefined")])
  {
    assert Split("", '&') == [""];
    assert Split("", '=') == [""];
    Uri.DecodePlain("");
    Uri.DecodePlain("undefined");
    assert ParsedPair("") == Some(("", "undefined"));
    assert [""][..0] == [];
  }

  /** The value a key is given by the last pair that carries it. */
  function LastValue(pairs: seq<string>, k: string): Option<string>
  {
    if pairs == [] then None
    else
      var p := ParsedPair(pairs[|pairs| - 1]);
      if p.Some? && p.value.0 == k then Some(p.value.1) else LastValue(pairs[..|pairs| - 1], k)
  }

  /** A later pair with the same key overwrites an earlier one. */
  lemma {:induction false} ParsedPairsGet(pairs: seq<string>, k: string)
    requires ParsedPairs(pairs).Ok?
    ensures Get(ParsedPairs(pairs).value, k) == LastValue(pairs, k)
  {
    if pairs != [] {
      var init := pairs[..|pairs| - 1];
      ParsedPairsGet(init, k);
      var obj := ParsedPairs(init).value;
      var (k', v) := ParsedPair(pairs[|pairs| - 1]).value;
      PutGet(obj, k', v, k);
    }
  }

  /** A pair of plain text (no `%`) decodes to its own text. */
  lemma ParsedPlainPair(key: string, val: string)
    requires '=' !in key && '=' !in val && '%' !in key && '%' !in val
    ensures ParsedPair(key + "=" + val) == Some((key, val))
  {
    assert Join([key, val], "=") == key + "=" + val;
    SplitJoin([key, val], '=');
    Uri.DecodePlain(key);
    Uri.DecodePlain(val);
  }

  /** A pair with no `=` has the value "undefined". */
  lemma ParsedBarePair(key: string)
    requires '=' !in key && '%' !in key
    ensures ParsedPair(key) == Some((key, "undefined"))
  {
    assert Split(key, '=') == [key];
    Uri.DecodePlain(key);
    Uri.DecodePlain("undefined");
  }

  // ---------------------------------------------------------------------
  // Small objects and texts

  /** A one-property object whose value is neither null nor undefined
      serialises to its one pair. */
  lemma SerializedSingle(key: string, val: Value)
    requires Flat(val) && !IsNullish(val)
    ensures Serialized(Obj([(key, val)])) == Str(EncodedPair(key, val))
  {
    var fs := [(key, val)];
    assert IsObject(Obj(fs)) && Enumerate(Obj(fs)) == fs;
    assert ObjectPairs(fs) == [EncodedPair(key, val)] by {
      assert fs[..0] == [];
    }
  }

  /** A pair whose name and value need no escaping is written as it is. */
  lemma PlainEncodedPair(key: string, val: Value)
    requires Uri.AllUnreserved(key) && Uri.AllUnreserved(ToStr(val))
    ensures EncodedPair(key, val) == key + "=" + ToStr(val)
  {
    Uri.EncodeUnreserved(key);
    Uri.EncodeUnreserved(ToStr(val));
  }

  /** `{ foo: 'bar' }` gives "foo=bar". */
  lemma SerializePlainSingle(key: string, val: Value)
    requires Flat(val) && !IsNullish(val) && Uri.AllUnreserved(key) && Uri.AllUnreserved(ToStr(val))
    ensures Serialized(Obj([(key, val)])) == Str(key + "=" + ToStr(val))
  {
    SerializedSingle(key, val);
    PlainEncodedPair(key, val);
  }

  /** A further property that is neither null nor undefined adds "&" and its
      pair to the end of a non-empty serialisation. */
  lemma SerializedAppend(fs: Fields<Value>, key: string, val: Value)
    requires Flat(val) && !IsNullish(val) && Serialized(Obj(fs)) != Str("")
    ensures Serialized(Obj(fs + [(key, val)])) == Str(Serialized(Obj(fs)).s + "&" + EncodedPair(key, val))
  {
    var gs := fs + [(key, val)];
    assert gs[..|gs| - 1] == fs && gs[|gs| - 1] == (key, val);
    assert IsObject(Obj(fs)) && Enumerate(Obj(fs)) == fs;
    assert IsObject(Obj(gs)) && Enumerate(Obj(gs)) == gs;
    var p := ObjectPairs(fs);
    assert ObjectPairs(gs) == p + [EncodedPair(key, val)];
    assert p != [];
    JoinAppend(p, EncodedPair(key, val), "&");
  }

  /** `{ name: 'tj', age: 24 }` gives "name=tj&age=24": the pairs in
      property order, a number by its decimal form. */
  lemma SerializePlainPair(k1: string, v1: Value, k2: string, v2: Value)
    requires Flat(v1) && !IsNullish(v1) && Uri.AllUnreserved(k1) && Uri.AllUnreserved(ToStr(v1))
    requires Flat(v2) && !IsNullish(v2) && Uri.AllUnreserved(k2) && Uri.AllUnreserved(ToStr(v2))
    ensures Serialized(Obj([(k1, v1), (k2, v2)])) == Str((k1 + "=" + ToStr(v1)) + "&" + (k2 + "=" + ToStr(v2)))
  {
    assert [(k1, v1), (k2, v2)] == [(k1, v1)] + [(k2, v2)];
    SerializePlainSingle(k1, v1);
    SerializedAppend([(k1, v1)], k2, v2);
    PlainEncodedPair(k2, v2);
  }

  /** A string property is written as its encoded name, "=" and its encoded
      value, whatever characters they hold; an "&" in either is escaped as
      "%26", so the result holds no "&" that could be taken for a
      separator. */
  lemma SerializeEscapesAmpersands(k: string, v: string)
    ensures Serialized(Obj([(k, Str(v))])) == Str(Uri.Encode(k) + "=" + Uri.Encode(v))
    ensures '&' !in Serialized(Obj([(k, Str(v))])).s
    ensures Uri.Encode("&") == "%26"
  {
    SerializedSingle(k, Str(v));
    Uri.EncodeAvoidsSeparators(k);
    Uri.EncodeAvoidsSeparators(v);
    Uri.EncodeAmpersand();
  }

  /** `{ name: '&tj&' }` gives "name=%26tj%26": a value wrapped in "&"s. */
  lemma SerializeAmpersandValue(key: string, a: string)
    requires Uri.AllUnreserved(key) && Uri.AllUnreserved(a)
    ensures Serialized(Obj([(key, Str("&" + a + "&"))])) == Str(key + "=" + ("%26" + a + "%26"))
  {
    SerializeEscapesAmpersands(key, "&" + a + "&");
    Uri.EncodeUnreserved(key);
    Uri.EncodeBetweenAmpersands(a);
  }

  /** `{ '&name&': 'tj' }` gives "%26name%26=tj": a name wrapped in "&"s. */
  lemma SerializeAmpersandKey(a: string, val: string)
    requires Uri.AllUnreserved(a) && Uri.AllUnreserved(val)
    ensures Serialized(Obj([("&" + a + "&", Str(val))])) == Str(("%26" + a + "%26") + "=" + val)
  {
    SerializeEscapesAmpersands("&" + a + "&", val);
    Uri.EncodeUnreserved(val);
    Uri.EncodeBetweenAmpersands(a);
  }

  /** Two texts that read as pairs with distinct keys, joined by "&", give a
      two-property object. */
  lemma ParsedTwo(a: string, b: string, p: (string, string), q: (string, string))
    requires '&' !in a && '&' !in b
    requires ParsedPair(a) == Some(p) && ParsedPair(b) == Some(q) && p.0 != q.0
    ensures ParsedString(a + "&" + b) == Ok([p, q])
  {
    var ps := [a, b];
    assert Split(a + "&" + b, '&') == ps by {
      assert Join(ps, "&") == a + "&" + b;
      SplitJoin(ps, '&');
    }
    assert ParsedPairs(ps[..1]) == Ok([p]) by {
      assert ps[..1] == [a] && ps[..1][..0] == [];
    }
    assert Put([p], q.0, q.1) == [p, q] by {
      assert [p][1..] == [];
    }
    assert ParsedPairs(ps) == Ok(Put([p], q.0, q.1));
  }

  lemma NotInPair(c: char, k: string, v: string)
    requires c != '=' && c !in k && c !in v
    ensures c !in k + "=" + v
  {
  }

  /** "name=Manny&species=cat" gives `{ name: 'Manny', species: 'cat' }`. */
  lemma ParsePlainPairs(k1: string, v1: string, k2: string, v2: string)
    requires '=' !in k1 && '=' !in v1 && '=' !in k2 && '=' !in v2
    requires '&' !in k1 && '&' !in v1 && '&' !in k2 && '&' !in v2
    requires '%' !in k1 && '%' !in v1 && '%' !in k2 && '%' !in v2
    requires k1 != k2
    ensures ParsedString((k1 + "=" + v1) + "&" + (k2 + "=" + v2)) == Ok([(k1, v1), (k2, v2)])
  {
    NotInPair('&', k1, v1);
    NotInPair('&', k2, v2);
    ParsedPlainPair(k1, v1);
    ParsedPlainPair(k2, v2);
    ParsedTwo(k1 + "=" + v1, k2 + "=" + v2, (k1, v1), (k2, v2));
  }

  /** "redirect=/&ok" gives `{ redirect: '/', ok: 'undefined' }`. */
  lemma ParseBareSecond(k1: string, v1: string, k2: string)
    requires '=' !in k1 && '=' !in v1 && '=' !in k2
    requires '&' !in k1 && '&' !in v1 && '&' !in k2
    requires '%' !in k1 && '%' !in v1 && '%' !in k2
    requires k1 != k2
    ensures ParsedString((k1 + "=" + v1) + "&" + k2) == Ok([(k1, v1), (k2, "undefined")])
  {
    NotInPair('&', k1, v1);
    ParsedPlainPair(k1, v1);
    ParsedBarePair(k2);
    ParsedTwo(k1 + "=" + v1, k2, (k1, v1), (k2, "undefined"));
  }

  // ---------------------------------------------------------------------
  // Registries

  const FormMime: string := "application/x-www-form-urlencoded"
  const JsonMime: string := "application/json"

  /** The default `types` table: short names for MIME types. */
  const DefaultTypes: map<string, string> := map[
    "html" := "text/html",
    "json" := JsonMime,
    "xml" := "application/xml",
    "urlencoded" := FormMime,
    "form" := FormMime,
    "form-data" := FormMime
  ]

  /** A codec a registry names: the form codec, JSON, or one a caller
      registered under some name. */
  datatype Codec = FormCodec | JsonCodec | Custom(name: string)

  /** The default `serialize` and `parse` tables. */
  const DefaultSerializers: map<string, Codec> := map[FormMime := FormCodec, JsonMime := JsonCodec]
  const DefaultParsers: map<string, Codec> := map[FormMime := FormCodec, JsonMime := JsonCodec]

  /** The functions the model does not see into: `JSON.stringify` (on a
      defined value),
      `JSON.parse` (an Err for what it throws) and the codecs callers
      register. */
  datatype Env = Env(
    stringify: Value -> string,
    jsonParse: string -> Result<Value>,
    serializeCustom: (string, Value) -> Value,
    parseCustom: (string, string) -> Result<Value>)

  function StrValues(fs: Fields<string>): (r: Fields<Value>)
    ensures |r| == |fs|
  {
    if fs == [] then [] else [(fs[0].0, Str(fs[0].1))] + StrValues(fs[1..])
  }

  /** Applying a registered serializer; `JSON.stringify(undefined)` is
      itself undefined, not a string. */
  function SerializeWith(env: Env, codec: Codec, v: Value): Value
  {
    match codec
    case FormCodec => Serialized(v)
    case JsonCodec => if v.Undefined? then Undefined else Str(env.stringify(v))
    case Custom(n) => env.serializeCustom(n, v)
  }

  /** Applying a registered parser; an Err is the exception it throws. */
  function ParseWith(env: Env, codec: Codec, text: string): Result<Value>
  {
    match codec
    case FormCodec =>
      (match ParsedString(text)
       case Ok(fs) => Ok(Obj(StrValues(fs)))
       case Err(e) => Err(e))
    case JsonCodec => env.jsonParse(text)
    case Custom(n) => env.parseCustom(n, text)
  }

  /** The three form aliases name the same MIME type, and the default
      serializers and parsers cover the same two MIME types with the same
      codec. */
  lemma DefaultRegistries()
    ensures DefaultTypes["urlencoded"] == DefaultTypes["form"] == DefaultTypes["form-data"] == FormMime
    ensures DefaultTypes["json"] == JsonMime
    ensures DefaultSerializers.Keys == DefaultParsers.Keys == {FormMime, JsonMime}
    ensures forall m :: m in DefaultSerializers ==> DefaultSerializers[m] == DefaultParsers[m]
    ensures forall m :: m in DefaultSerializers ==> m in DefaultTypes.Values
  {
    assert DefaultTypes["json"] == JsonMime && DefaultTypes["form"] == FormMime;
  }
}
