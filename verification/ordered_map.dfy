/** `LinkedHashMap` with string keys: a map that remembers an order of its keys, oldest first.
    In insertion order a `put` on a present key keeps its place; in access
    order (the image cache) every `get` and `put` moves the key to the end. */
module OrderedMap {

  predicate Distinct(ks: seq<string>) {
    forall i, j :: 0 <= i < j < |ks| ==> ks[i] != ks[j]
  }

  datatype Ordered<V> = Ordered(order: seq<string>, values: map<string, V>) {
    /** The order lists every key once and nothing else. */
    ghost predicate Valid() {
      Distinct(order) && forall k :: k in values <==> k in order
    }
  }

  function Empty<V>(): Ordered<V> {
    Ordered([], map[])
  }

  /** The keys other than `k`, in their order. */
  function Without(ks: seq<string>, k: string): (r: seq<string>)
    ensures forall x :: x in r <==> x in ks && x != k
    ensures |r| <= |ks|
    ensures k in ks ==> |r| < |ks|
    ensures k !in ks ==> r == ks
    ensures Distinct(ks) ==> Distinct(r)
    ensures Distinct(ks) && k in ks ==> |r| == |ks| - 1
  {
    if ks == [] then []
    else
      var rest := Without(ks[1..], k);
      assert forall x :: x in ks <==> x == ks[0] || x in ks[1..];
      if ks[0] == k then
        assert Distinct(ks) ==> k !in ks[1..];
        rest
      else
        assert Distinct(ks) ==> ks[0] !in rest;
        [ks[0]] + rest
  }

  /** `remove`. */
  function Remove<V>(m: Ordered<V>, k: string): (r: Ordered<V>)
    ensures k !in r.values
    ensures forall x :: x != k ==> (x in r.values <==> x in m.values) && (x in r.values ==> r.values[x] == m.values[x])
    ensures m.Valid() ==> r.Valid()
    ensures m.Valid() ==> forall x :: x in r.order <==> x in m.order && x != k
  {
    Ordered(Without(m.order, k), m.values - {k})
  }

  /** `put` in insertion order: a new key goes last, a present one keeps
      its place. */
  function Put<V>(m: Ordered<V>, k: string, v: V): (r: Ordered<V>)
    ensures r.values == m.values[k := v]
    ensures r.order == if k in m.values then m.order else m.order + [k]
    ensures m.Valid() ==> r.Valid()
  {
    if k in m.values then Ordered(m.order, m.values[k := v]) else Ordered(m.order + [k], m.values[k := v])
  }

  /** `put` in access order: the key becomes the most recent. */
  function PutLast<V>(m: Ordered<V>, k: string, v: V): (r: Ordered<V>)
    ensures r.values == m.values[k := v]
    ensures |r.order| > 0 && r.order[|r.order| - 1] == k
    ensures m.Valid() ==> r.Valid()
  {
    Ordered(Without(m.order, k) + [k], m.values[k := v])
  }

  /** `get` in access order: a present key becomes the most recent and the
      contents stay the same. */
  function Touch<V>(m: Ordered<V>, k: string): (r: Ordered<V>)
    ensures r.values == m.values
    ensures k in m.values ==> |r.order| > 0 && r.order[|r.order| - 1] == k
    ensures k !in m.values ==> r == m
    ensures m.Valid() ==> r.Valid()
  {
    if k in m.values then Ordered(Without(m.order, k) + [k], m.values) else m
  }

  /** In a valid map the number of keys is the length of the order. */
  lemma {:induction false} SizeIsOrderLength<V>(m: Ordered<V>)
    requires m.Valid()
    ensures |m.values| == |m.order|
    decreases |m.order|
  {
    if m.order == [] {
      assert m.values == map[];
    } else {
      var k := m.order[0];
      var rest := Ordered(m.order[1..], m.values - {k});
      assert Without(m.order, k) == m.order[1..] by {
        assert k !in m.order[1..];
        assert Without(m.order[1..], k) == m.order[1..];
      }
      assert rest == Remove(m, k);
      SizeIsOrderLength(rest);
      assert m.values.Keys == rest.values.Keys + {k};
    }
  }

  /** Dropping the oldest key of a valid map leaves the rest of the order. */
  lemma DropOldest<V>(m: Ordered<V>)
    requires m.Valid() && m.order != []
    ensures Remove(m, m.order[0]).order == m.order[1..]
  {
    var k := m.order[0];
    assert k !in m.order[1..];
    assert Without(m.order[1..], k) == m.order[1..];
  }
}
