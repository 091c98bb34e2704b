/** String-keyed maps that remember insertion order, as JavaScript objects do
    for non-numeric keys: assigning to a new key appends it, assigning to an
    existing key replaces its value in place, and `delete` drops it. */
module OrderedMaps {

  /** No key occurs twice in `ks`. */
  predicate Distinct(ks: seq<string>)
    decreases |ks|
  {
    ks == [] || (ks[0] !in ks[1..] && Distinct(ks[1..]))
  }

  /** `Distinct` as a statement about every pair of positions. */
  lemma {:induction false} DistinctPairs(ks: seq<string>)
    requires Distinct(ks)
    ensures forall i, j :: 0 <= i < j < |ks| ==> ks[i] != ks[j]
    decreases |ks|
  {
    if ks != [] {
      DistinctPairs(ks[1..]);
      forall i, j | 0 <= i < j < |ks|
        ensures ks[i] != ks[j]
      {
        if i == 0 {
          assert ks[j] == ks[1..][j - 1];
        } else {
          assert ks[i] == ks[1..][i - 1] && ks[j] == ks[1..][j - 1];
        }
      }
    }
  }

  /** Appending a key that is not yet there keeps the keys distinct. */
  lemma {:induction false} DistinctSnoc(ks: seq<string>, k: string)
    requires Distinct(ks) && k !in ks
    ensures Distinct(ks + [k])
    decreases |ks|
  {
    if ks != [] {
      DistinctSnoc(ks[1..], k);
      assert (ks + [k])[1..] == ks[1..] + [k];
    } else {
      assert [k][1..] == [];
    }
  }

  datatype OMap<V> = OMap(keys: seq<string>, vals: map<string, V>) {
    /** Keys are distinct and are exactly the keys of `vals`. */
    predicate Valid() {
      Distinct(keys) &&
      (forall k :: k in vals ==> k in keys) &&
      (forall i :: 0 <= i < |keys| ==> keys[i] in vals)
    }
  }

  function Empty<V>(): (m: OMap<V>)
    ensures m.Valid() && m.keys == [] && m.vals == map[]
  {
    OMap([], map[])
  }

  /** `m[k] = v`. */
  function Put<V>(m: OMap<V>, k: string, v: V): (r: OMap<V>)
    ensures m.Valid() ==> r.Valid()
    ensures k in r.vals && r.vals[k] == v
    ensures forall j :: j != k ==> (j in r.vals <==> j in m.vals)
    ensures forall j :: j != k && j in m.vals ==> r.vals[j] == m.vals[j]
    ensures |m.keys| <= |r.keys| && r.keys[..|m.keys|] == m.keys
    ensures k in m.vals ==> r.keys == m.keys
  {
    if k in m.vals then OMap(m.keys, m.vals[k := v])
    else
      assert m.Valid() ==> Distinct(m.keys + [k]) by {
        if m.Valid() {
          DistinctSnoc(m.keys, k);
        }
      }
      OMap(m.keys + [k], m.vals[k := v])
  }

  /** The order of `ks` with every copy of `k` taken out. */
  function Without(ks: seq<string>, k: string): (r: seq<string>)
    ensures forall j :: j in r <==> j in ks && j != k
    ensures Distinct(ks) ==> Distinct(r)
    ensures k !in ks ==> r == ks
  {
    if ks == [] then []
    else
      var rest := Without(ks[1..], k);
      if ks[0] == k then rest
      else
        assert ([ks[0]] + rest)[1..] == rest;
        [ks[0]] + rest
  }

  /** Taking `k` out of two runs of keys one after the other is taking it
      out of each: every other key keeps its place relative to the rest. */
  lemma {:induction false} WithoutConcat(a: seq<string>, b: seq<string>, k: string)
    ensures Without(a + b, k) == Without(a, k) + Without(b, k)
    decreases |a|
  {
    if a == [] {
      assert a + b == b;
    } else {
      assert (a + b)[1..] == a[1..] + b;
      WithoutConcat(a[1..], b, k);
    }
  }

  /** On one key, `Without` drops it when it is `k` and keeps it otherwise. */
  lemma WithoutSingle(j: string, k: string)
    ensures Without([j], k) == if j == k then [] else [j]
  {
    assert [j][1..] == [];
  }

  /** `delete m[k]`. */
  function Remove<V>(m: OMap<V>, k: string): (r: OMap<V>)
    ensures m.Valid() ==> r.Valid()
    ensures r.keys == Without(m.keys, k)
    ensures k !in r.vals
    ensures forall j :: j != k ==> (j in r.vals <==> j in m.vals)
    ensures forall j :: j in r.vals ==> r.vals[j] == m.vals[j]
  {
    var ks := Without(m.keys, k);
    assert forall i :: 0 <= i < |ks| ==> ks[i] in ks;
    OMap(ks, m.vals - {k})
  }

  /** The values in key order, as `Object.keys(m).map(k => m[k])` gives them. */
  function Values<V>(m: OMap<V>): (r: seq<V>)
    requires m.Valid()
    ensures |r| == |m.keys|
    ensures forall i :: 0 <= i < |r| ==> r[i] == m.vals[m.keys[i]]
  {
    seq(|m.keys|, i requires 0 <= i < |m.keys| => m.vals[m.keys[i]])
  }

  /** Assigning the same key twice leaves only the second value, at the
      position the first assignment gave it. */
  lemma PutPut<V>(m: OMap<V>, k: string, v: V, w: V)
    ensures Put(Put(m, k, v), k, w) == Put(m, k, w)
  {
  }
}
