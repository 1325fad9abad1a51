/** A JavaScript object with string keys, as the client builds and walks
    them: the own enumerable properties in insertion order.  (JavaScript
    visits keys that are array indices first, in ascending order; this list
    keeps every key in insertion order.)  Reading a missing property gives
    undefined (None); assigning one overwrites it in place or appends it. */
module Fields {
  import opened Wrappers

  type Fields<V> = seq<(string, V)>

  function Keys<V>(fs: Fields<V>): (ks: seq<string>)
    ensures |ks| == |fs|
    ensures forall i :: 0 <= i < |fs| ==> ks[i] == fs[i].0
  {
    if fs == [] then [] else [fs[0].0] + Keys(fs[1..])
  }

  /** No key occurs twice, as in every object the runtime builds. */
  predicate DistinctKeys<V>(fs: Fields<V>)
  {
    forall i, j :: 0 <= i < j < |fs| ==> fs[i].0 != fs[j].0
  }

  /** `obj[k]`: the value under `k`, None when `k` is not a property. */
  function Get<V>(fs: Fields<V>, k: string): Option<V>
  {
    if fs == [] then None
    else if fs[0].0 == k then Some(fs[0].1)
    else Get(fs[1..], k)
  }

  /** A property is read back exactly when it is a key, and what is read is the
      value stored under the first occurrence of that key. */
  lemma {:induction false} GetFound<V>(fs: Fields<V>, k: string)
    ensures Get(fs, k).Some? <==> k in Keys(fs)
    ensures Get(fs, k).Some? ==> exists i :: 0 <= i < |fs| && fs[i] == (k, Get(fs, k).value)
  {
    if fs != [] && fs[0].0 != k {
      GetFound(fs[1..], k);
      assert Keys(fs) == [fs[0].0] + Keys(fs[1..]);
      if Get(fs, k).Some? {
        var i :| 0 <= i < |fs[1..]| && fs[1..][i] == (k, Get(fs, k).value);
        assert fs[i + 1] == (k, Get(fs, k).value);
      }
    }
  }

  /** In a well-formed object, the value of key `fs[i].0` is `fs[i].1`. */
  lemma {:induction false} GetAt<V>(fs: Fields<V>, i: nat)
    requires DistinctKeys(fs) && i < |fs|
    ensures Get(fs, fs[i].0) == Some(fs[i].1)
  {
    if i > 0 {
      GetAt(fs[1..], i - 1);
    }
  }

  /** `obj[k] = v`: overwrite in place when `k` is a key, else append at the
      end of the insertion order. */
  function Put<V>(fs: Fields<V>, k: string, v: V): Fields<V>
  {
    if fs == [] then [(k, v)]
    else if fs[0].0 == k then [(k, v)] + fs[1..]
    else [fs[0]] + Put(fs[1..], k, v)
  }

  /** After `obj[k] = v`, `k` holds `v` and every other key keeps its value. */
  lemma {:induction false} PutGet<V>(fs: Fields<V>, k: string, v: V, k': string)
    ensures Get(Put(fs, k, v), k') == if k' == k then Some(v) else Get(fs, k')
  {
    if fs != [] && fs[0].0 != k {
      PutGet(fs[1..], k, v, k');
    }
  }

  /** An existing key keeps its position, a new key goes last. */
  lemma {:induction false} PutKeys<V>(fs: Fields<V>, k: string, v: V)
    ensures k in Keys(fs) ==> Keys(Put(fs, k, v)) == Keys(fs)
    ensures k !in Keys(fs) ==> Put(fs, k, v) == fs + [(k, v)]
  {
    if fs != [] && fs[0].0 != k {
      PutKeys(fs[1..], k, v);
      assert Keys(fs) == [fs[0].0] + Keys(fs[1..]);
      assert Keys(Put(fs, k, v)) == [fs[0].0] + Keys(Put(fs[1..], k, v));
    } else if fs != [] {
      assert Keys(Put(fs, k, v)) == [k] + Keys(fs[1..]);
      assert Keys(fs) == [k] + Keys(fs[1..]);
    }
  }

  /** Assignment keeps an object well formed. */
  lemma PutDistinct<V>(fs: Fields<V>, k: string, v: V)
    requires DistinctKeys(fs)
    ensures DistinctKeys(Put(fs, k, v))
  {
    PutKeys(fs, k, v);
    if k !in Keys(fs) {
      assert forall i :: 0 <= i < |fs| ==> fs[i].0 != k by {
        forall i | 0 <= i < |fs| ensures fs[i].0 != k { assert Keys(fs)[i] == fs[i].0; }
      }
    } else {
      var r := Put(fs, k, v);
      assert forall i :: 0 <= i < |r| ==> r[i].0 == Keys(r)[i] == Keys(fs)[i] == fs[i].0;
    }
  }

  /** `for (key in gs) fs[key] = gs[key]`: assign every property of `gs`, in order. */
  function PutAll<V>(fs: Fields<V>, gs: Fields<V>): Fields<V>
  {
    if gs == [] then fs
    else
      var last := gs[|gs| - 1];
      Put(PutAll(fs, gs[..|gs| - 1]), last.0, last.1)
  }

  /** Assigning one more pair of a list is one more Put. */
  lemma PutAllPrefix<V>(fs: Fields<V>, gs: Fields<V>, i: nat)
    requires i < |gs|
    ensures PutAll(fs, gs[..i + 1]) == Put(PutAll(fs, gs[..i]), gs[i].0, gs[i].1)
  {
    assert gs[..i + 1][..i] == gs[..i];
  }

  lemma {:induction false} GetAppend<V>(a: Fields<V>, b: Fields<V>, k: string)
    ensures Get(a + b, k) == if k in Keys(a) then Get(a, k) else Get(b, k)
  {
    if a == [] {
      assert a + b == b;
    } else {
      assert (a + b)[0] == a[0];
      assert Keys(a) == [a[0].0] + Keys(a[1..]);
      if a[0].0 != k {
        assert (a + b)[1..] == a[1..] + b;
        GetAppend(a[1..], b, k);
      }
    }
  }

  lemma {:induction false} LastKeyIsNew<V>(gs: Fields<V>)
    requires DistinctKeys(gs) && gs != []
    ensures gs[|gs| - 1].0 !in Keys(gs[..|gs| - 1])
  {
    var init := gs[..|gs| - 1];
    forall i | 0 <= i < |init| ensures Keys(init)[i] != gs[|gs| - 1].0 {
      assert gs[i].0 != gs[|gs| - 1].0;
    }
  }

  /** Merging: after assigning every property of `gs` (a well-formed object),
      its keys hold its values and every other key keeps the value it had. */
  lemma {:induction false} PutAllGet<V>(fs: Fields<V>, gs: Fields<V>, k: string)
    requires DistinctKeys(gs)
    ensures Get(PutAll(fs, gs), k) == if k in Keys(gs) then Get(gs, k) else Get(fs, k)
    decreases |gs|
  {
    if gs != [] {
      var init, last := gs[..|gs| - 1], gs[|gs| - 1];
      assert gs == init + [last];
      assert Keys(gs) == Keys(init) + [last.0];
      PutAllGet(fs, init, k);
      PutGet(PutAll(fs, init), last.0, last.1, k);
      GetAppend(init, [last], k);
      LastKeyIsNew(gs);
    }
  }

  /** Merging keeps the keys that were there, in their positions; the new ones
      follow them. */
  lemma {:induction false} PutAllKeys<V>(fs: Fields<V>, gs: Fields<V>)
    ensures |PutAll(fs, gs)| >= |fs| && Keys(PutAll(fs, gs))[..|fs|] == Keys(fs)
    decreases |gs|
  {
    if gs != [] {
      var init, last := gs[..|gs| - 1], gs[|gs| - 1];
      PutAllKeys(fs, init);
      var p := PutAll(fs, init);
      PutKeys(p, last.0, last.1);
      if last.0 !in Keys(p) {
        assert Keys(p + [last]) == Keys(p) + [last.0];
      }
    }
  }
}
