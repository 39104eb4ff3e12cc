/** Python's insertion-ordered `dict`: the keys in insertion order and the
    value of each. Assigning to a present key keeps its place, assigning to
    an absent key appends it at the end, `del` removes it; so `del d[k]`
    followed by `d[k] = v` moves `k` to the end. */
module PyDict {
  import opened Base

  datatype Dict<K, V> = Dict(keys: seq<K>, values: map<K, V>)

  /** Every key occurs once in the order, and the order lists exactly the
      keys that have a value. */
  ghost predicate WellFormed<K(!new), V>(d: Dict<K, V>) {
    Distinct(d.keys) && forall k :: k in d.values <==> k in d.keys
  }

  predicate HasKey<K, V>(d: Dict<K, V>, k: K) {
    k in d.values
  }

  /** `d[k]`. */
  function Get<K, V>(d: Dict<K, V>, k: K): V
    requires HasKey(d, k)
  {
    d.values[k]
  }

  function Other<K(!new,==)>(k: K): K -> bool {
    (x: K) => x != k
  }

  /** `del d[k]`: the key leaves the order and the map; the other keys keep
      their order and their values. */
  function Delete<K(!new,==), V>(d: Dict<K, V>, k: K): (r: Dict<K, V>)
    ensures r.keys == Keep(d.keys, Other(k))
    ensures WellFormed(d) ==> WellFormed(r)
    ensures forall k' :: HasKey(r, k') <==> HasKey(d, k') && k' != k
    ensures forall k' :: HasKey(r, k') ==> Get(r, k') == Get(d, k')
  {
    Dict(Keep(d.keys, Other(k)), d.values - {k})
  }

  /** Deleting a key takes it out of its place in the order and leaves the
      keys before and after it as they were. */
  lemma DeleteMiddle<K(!new), V>(d: Dict<K, V>, a: seq<K>, k: K, b: seq<K>)
    requires WellFormed(d) && d.keys == a + [k] + b
    ensures Delete(d, k).keys == a + b
  {
    var p := Other(k);
    forall x | x in a ensures p(x) {
      var i :| 0 <= i < |a| && a[i] == x;
      assert d.keys[i] == x && d.keys[|a|] == k;
    }
    forall x | x in b ensures p(x) {
      var i :| 0 <= i < |b| && b[i] == x;
      assert d.keys[|a| + 1 + i] == x && d.keys[|a|] == k;
    }
    KeepDrop(a, k, b, p);
  }

  /** Two dictionaries with the same key order and the same value for every
      key are the same dictionary. */
  lemma Same<K(!new), V>(d: Dict<K, V>, e: Dict<K, V>)
    requires d.keys == e.keys && forall k :: HasKey(d, k) <==> HasKey(e, k)
    requires forall k :: HasKey(d, k) ==> Get(d, k) == Get(e, k)
    ensures d == e
  {
    assert d.values.Keys == e.values.Keys by {
      forall k ensures k in d.values.Keys <==> k in e.values.Keys {
        assert HasKey(d, k) <==> HasKey(e, k);
      }
    }
    forall k | k in d.values ensures d.values[k] == e.values[k] {
      assert HasKey(d, k);
    }
    assert d.values == e.values;
  }

  /** `d[k] = v`: a present key keeps its place, a new one goes last. */
  function Assign<K(!new,==), V>(d: Dict<K, V>, k: K, v: V): (r: Dict<K, V>)
    ensures HasKey(d, k) ==> r.keys == d.keys
    ensures !HasKey(d, k) ==> r.keys == d.keys + [k]
    ensures WellFormed(d) ==> WellFormed(r)
    ensures forall k' :: HasKey(r, k') <==> HasKey(d, k') || k' == k
    ensures Get(r, k) == v
    ensures forall k' :: k' != k && HasKey(d, k') ==> Get(r, k') == Get(d, k')
  {
    if k in d.values then Dict(d.keys, d.values[k := v])
    else
      var r := Dict(d.keys + [k], d.values[k := v]);
      assert WellFormed(d) ==> Distinct(r.keys) by {
        if WellFormed(d) {
          assert k !in d.keys;
        }
      }
      r
  }

  /** `d[k].append(x)` on a `defaultdict(list)`: an absent key starts from
      the empty list. */
  function Append<K(!new,==), X>(d: Dict<K, seq<X>>, k: K, x: X): (r: Dict<K, seq<X>>)
    ensures HasKey(d, k) ==> r.keys == d.keys
    ensures !HasKey(d, k) ==> r.keys == d.keys + [k]
    ensures WellFormed(d) ==> WellFormed(r)
    ensures forall k' :: HasKey(r, k') <==> HasKey(d, k') || k' == k
    ensures Get(r, k) == (if HasKey(d, k) then Get(d, k) else []) + [x]
    ensures forall k' :: k' != k && HasKey(d, k') ==> Get(r, k') == Get(d, k')
  {
    Assign(d, k, (if HasKey(d, k) then Get(d, k) else []) + [x])
  }
}
