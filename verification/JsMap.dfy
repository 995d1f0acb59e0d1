/** A JavaScript `Map` with string keys: lookups by key, iteration in insertion order. */
module JsMaps {

  datatype JsMap<V> = JsMap(keys: seq<string>, at: map<string, V>) {

    ghost predicate Valid() {
      && (forall k :: k in keys <==> k in at)
      && (forall i, j :: 0 <= i < j < |keys| ==> keys[i] != keys[j])
    }

    /** `map.set(k, v)` */
    function Set(k: string, v: V): JsMap<V> {
      JsMap(if k in at then keys else keys + [k], at[k := v])
    }

    /** `map.delete(k)` */
    function Delete(k: string): JsMap<V> {
      JsMap(DropKey(keys, k), at - {k})
    }

    /** `map.values()` */
    function Values(): seq<V>
      requires Valid()
    {
      seq(|keys|, i requires 0 <= i < |keys| => at[keys[i]])
    }
  }

  function DropKey(keys: seq<string>, k: string): seq<string> {
    if keys == [] then []
    else if keys[0] == k then DropKey(keys[1..], k)
    else [keys[0]] + DropKey(keys[1..], k)
  }

  lemma {:induction false} DropKeyHas(keys: seq<string>, k: string)
    ensures forall x :: x in DropKey(keys, k) <==> x in keys && x != k
  {
    if keys != [] {
      DropKeyHas(keys[1..], k);
      assert keys == [keys[0]] + keys[1..];
    }
  }

  lemma {:induction false} DropKeyDistinct(keys: seq<string>, k: string)
    requires forall i, j :: 0 <= i < j < |keys| ==> keys[i] != keys[j]
    ensures forall i, j :: 0 <= i < j < |DropKey(keys, k)| ==> DropKey(keys, k)[i] != DropKey(keys, k)[j]
  {
    if keys != [] {
      var rest := DropKey(keys[1..], k);
      DropKeyDistinct(keys[1..], k);
      DropKeyHas(keys[1..], k);
      assert keys[0] !in keys[1..];
      assert keys[0] !in rest;
      assert DropKey(keys, k) == if keys[0] == k then rest else [keys[0]] + rest;
    }
  }

  lemma SetKeepsValid<V>(m: JsMap<V>, k: string, v: V)
    requires m.Valid()
    ensures m.Set(k, v).Valid()
    ensures k !in m.at ==> m.Set(k, v).Values() == m.Values() + [v]
    ensures k in m.at ==> exists i :: 0 <= i < |m.keys| && m.keys[i] == k && m.Set(k, v).Values() == m.Values()[i := v]
  {
  }

  lemma DeleteKeepsValid<V>(m: JsMap<V>, k: string)
    requires m.Valid()
    ensures m.Delete(k).Valid()
  {
    DropKeyHas(m.keys, k);
    DropKeyDistinct(m.keys, k);
    assert m.Delete(k).keys == DropKey(m.keys, k);
  }
}
