/**
 * A JavaScript `Map` with string keys: a finite map that also remembers the order in
 * which its keys were first inserted. `forEach` and `values()` visit entries in that
 * order; `set` on a present key replaces the value and keeps the key's position.
 */
module JsMaps {
  import opened Options

  predicate Distinct(ks: seq<string>) {
    forall i, j :: 0 <= i < j < |ks| ==> ks[i] != ks[j]
  }

  datatype JsMap<V> = JsMap(keys: seq<string>, entries: map<string, V>) {

    /** The key list enumerates the entries exactly once each. */
    ghost predicate Valid() {
      Distinct(keys) && forall k :: k in entries <==> k in keys
    }

    predicate Has(k: string) {
      k in entries
    }

    /** `map.get(k)`, `undefined` being `None`. */
    function Get(k: string): Option<V> {
      if k in entries then Some(entries[k]) else None
    }

    /** `map.set(k, v)`. */
    function Set(k: string, v: V): (r: JsMap<V>)
      ensures r.Get(k) == Some(v)
      ensures forall k' :: k' != k ==> r.Get(k') == Get(k')
      ensures Valid() ==> r.Valid()
      ensures Has(k) ==> r.keys == keys
      ensures !Has(k) ==> r.keys == keys + [k]
    {
      JsMap(if k in entries then keys else keys + [k], entries[k := v])
    }

    /** `Array.from(map.values())`, in insertion order. */
    function Values(): (r: seq<V>)
      requires Valid()
      ensures |r| == |keys|
      ensures forall i :: 0 <= i < |keys| ==> r[i] == entries[keys[i]]
    {
      seq(|keys|, i requires 0 <= i < |keys| && keys[i] in entries => entries[keys[i]])
    }
  }

  /** `new Map()`. */
  function Empty<V>(): (r: JsMap<V>)
    ensures r.Valid() && r.keys == []
    ensures forall k :: r.Get(k) == None
  {
    JsMap([], map[])
  }

  /** Every value of a valid map is stored under one of its keys, and conversely. */
  lemma {:induction false} ValuesAreEntries<V>(m: JsMap<V>, v: V)
    requires m.Valid()
    ensures v in m.Values() <==> exists k :: k in m.entries && m.entries[k] == v
  {
    var vs := m.Values();
    if v in vs {
      var i :| 0 <= i < |vs| && vs[i] == v;
      assert m.keys[i] in m.entries;
    }
    if k :| k in m.entries && m.entries[k] == v {
      assert k in m.keys;
      var i :| 0 <= i < |m.keys| && m.keys[i] == k;
      assert vs[i] == v;
    }
  }
}
