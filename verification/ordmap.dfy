/** Insertion-ordered maps, the model of the `IndexMap` that backs `Crate`
    and `Workspace` (src/models.rs). A key that is inserted again keeps its
    position and gets the new value. */
module OrderedMaps {

  predicate Distinct<K(==)>(ks: seq<K>) {
    forall i, j :: 0 <= i < j < |ks| ==> ks[i] != ks[j]
  }

  datatype RawOrdMap<K(==), V> = RawOrdMap(keys: seq<K>, values: map<K, V>) {
    predicate Valid() {
      Distinct(keys) && values.Keys == set i | 0 <= i < |keys| :: keys[i]
    }
  }

  type OrdMap<K(==), V> = m: RawOrdMap<K, V> | m.Valid() witness RawOrdMap([], map[])

  function Empty<K(==), V>(): (m: OrdMap<K, V>)
    ensures m.keys == [] && m.values == map[]
  {
    RawOrdMap([], map[])
  }

  /** `IndexMap::insert`: a fresh key goes to the end; an existing key keeps its slot. */
  function Insert<K(==), V>(m: OrdMap<K, V>, k: K, v: V): (r: OrdMap<K, V>)
    ensures r.values == m.values[k := v]
    ensures k in m.values ==> r.keys == m.keys
    ensures k !in m.values ==> r.keys == m.keys + [k]
  {
    if k in m.values then RawOrdMap(m.keys, m.values[k := v])
    else
      var r := RawOrdMap(m.keys + [k], m.values[k := v]);
      assert r.Valid() by {
        assert forall i :: 0 <= i < |m.keys| ==> r.keys[i] == m.keys[i] && m.keys[i] in m.values;
        assert r.keys[|m.keys|] == k;
      }
      r
  }

  /** The loop shared by `Crate::merge` and `Workspace::merge`: walk the keys of
      `other` in order; a colliding key gets `combine(existing, incoming)`, a new
      key is inserted with the incoming value. */
  function MergeWith<K(==), V>(m: OrdMap<K, V>, other: OrdMap<K, V>, combine: (V, V) -> V): OrdMap<K, V>
  {
    MergeKeys(m, other.keys, other.values, combine)
  }

  function MergeKeys<K(==), V>(m: OrdMap<K, V>, ks: seq<K>, incoming: map<K, V>, combine: (V, V) -> V): OrdMap<K, V>
    requires forall k :: k in ks ==> k in incoming
    decreases |ks|
  {
    if |ks| == 0 then m
    else
      var k := ks[0];
      var m' := if k in m.values then Insert(m, k, combine(m.values[k], incoming[k]))
                else Insert(m, k, incoming[k]);
      MergeKeys(m', ks[1..], incoming, combine)
  }

  /** The value `MergeWith` leaves under key `k`. */
  ghost function MergedValue<K, V>(m: OrdMap<K, V>, other: OrdMap<K, V>, combine: (V, V) -> V, k: K): V
    requires k in m.values || k in other.values
  {
    if k in m.values && k in other.values then combine(m.values[k], other.values[k])
    else if k in m.values then m.values[k]
    else other.values[k]
  }

  /** One step of the loop, taken apart so the induction below stays small. */
  lemma MergeKeysUnfold<K, V>(m: OrdMap<K, V>, ks: seq<K>, incoming: map<K, V>, combine: (V, V) -> V)
    requires forall k :: k in ks ==> k in incoming
    requires |ks| > 0
    ensures var k := ks[0];
      var m' := if k in m.values then Insert(m, k, combine(m.values[k], incoming[k])) else Insert(m, k, incoming[k]);
      && MergeKeys(m, ks, incoming, combine) == MergeKeys(m', ks[1..], incoming, combine)
      && m'.values.Keys == m.values.Keys + {k}
      && (forall x :: x in m.values && x != k ==> m'.values[x] == m.values[x])
      && m'.values[k] == (if k in m.values then combine(m.values[k], incoming[k]) else incoming[k])
      && |m.keys| <= |m'.keys| && m'.keys[..|m.keys|] == m.keys
  {
  }

  /** The elements of a non-empty sequence: its head and the elements of its tail. */
  lemma ElementsCons<K>(ks: seq<K>)
    requires |ks| > 0
    ensures (set x | x in ks) == {ks[0]} + set x | x in ks[1..]
  {
    assert forall x :: x in ks <==> x == ks[0] || x in ks[1..];
  }

  lemma {:induction false} MergeKeysKeys<K, V>(m: OrdMap<K, V>, ks: seq<K>, incoming: map<K, V>, combine: (V, V) -> V)
    requires forall k :: k in ks ==> k in incoming
    ensures MergeKeys(m, ks, incoming, combine).values.Keys == m.values.Keys + set k | k in ks
    decreases |ks|
  {
    if |ks| > 0 {
      MergeKeysUnfold(m, ks, incoming, combine);
      var k := ks[0];
      var m' := if k in m.values then Insert(m, k, combine(m.values[k], incoming[k])) else Insert(m, k, incoming[k]);
      MergeKeysKeys(m', ks[1..], incoming, combine);
      ElementsCons(ks);
    }
  }

  /** The keys of `ks` outside `known`, in the order of `ks`: the keys a merge
      appends, one by one, as it walks `other`. */
  function NewKeys<K>(ks: seq<K>, known: set<K>): (added: seq<K>)
    ensures forall i :: 0 <= i < |added| ==> added[i] in ks && added[i] !in known
    ensures forall i :: 0 <= i < |ks| && ks[i] !in known ==> ks[i] in added
  {
    if |ks| == 0 then []
    else (if ks[0] in known then [] else [ks[0]]) + NewKeys(ks[1..], known)
  }

  /** A key that does not occur in `ks` makes no difference to what is new. */
  lemma {:induction false} NewKeysIgnoresAbsent<K>(ks: seq<K>, known: set<K>, k: K)
    requires k !in ks
    ensures NewKeys(ks, known + {k}) == NewKeys(ks, known)
  {
    if |ks| > 0 {
      assert ks[0] != k && k !in ks[1..];
      NewKeysIgnoresAbsent(ks[1..], known, k);
    }
  }

  /** Colliding keys keep their slots, and the new keys follow the existing
      ones in the order the loop meets them. */
  lemma {:induction false} MergeKeysOrder<K, V>(m: OrdMap<K, V>, ks: seq<K>, incoming: map<K, V>, combine: (V, V) -> V)
    requires forall k :: k in ks ==> k in incoming
    requires Distinct(ks)
    ensures MergeKeys(m, ks, incoming, combine).keys == m.keys + NewKeys(ks, m.values.Keys)
    decreases |ks|
  {
    if |ks| == 0 {
      assert m.keys + [] == m.keys;
    } else {
      MergeKeysUnfold(m, ks, incoming, combine);
      var k := ks[0];
      var m' := if k in m.values then Insert(m, k, combine(m.values[k], incoming[k])) else Insert(m, k, incoming[k]);
      DistinctTail(ks);
      MergeKeysOrder(m', ks[1..], incoming, combine);
      OrderStep(m.keys, m'.keys, m.values.Keys, m'.values.Keys, ks, MergeKeys(m', ks[1..], incoming, combine).keys);
    }
  }

  /** One step of `MergeKeysOrder`: the head key is appended exactly when it is new. */
  lemma OrderStep<K>(before: seq<K>, after: seq<K>, known: set<K>, known': set<K>, ks: seq<K>, r: seq<K>)
    requires |ks| > 0 && ks[0] !in ks[1..]
    requires known' == known + {ks[0]}
    requires ks[0] in known ==> after == before
    requires ks[0] !in known ==> after == before + [ks[0]]
    requires r == after + NewKeys(ks[1..], known')
    ensures r == before + NewKeys(ks, known)
  {
    var k := ks[0];
    if k in known {
      assert known' == known;
      assert NewKeys(ks, known) == [] + NewKeys(ks[1..], known);
    } else {
      NewKeysIgnoresAbsent(ks[1..], known, k);
      AppendAssoc(before, [k], NewKeys(ks[1..], known));
    }
  }

  lemma AppendAssoc<K>(a: seq<K>, b: seq<K>, c: seq<K>)
    ensures a + b + c == a + (b + c)
  {
  }

  /** The tail of a duplicate-free sequence is duplicate-free and lacks the head. */
  lemma DistinctTail<K>(ks: seq<K>)
    requires Distinct(ks) && |ks| > 0
    ensures Distinct(ks[1..]) && ks[0] !in ks[1..]
    ensures forall x :: x in ks <==> x == ks[0] || x in ks[1..]
  {
    assert forall j :: 0 <= j < |ks[1..]| ==> ks[1..][j] == ks[j + 1];
  }

  lemma {:induction false} MergeKeysValues<K, V>(m: OrdMap<K, V>, ks: seq<K>, incoming: map<K, V>, combine: (V, V) -> V)
    requires forall k :: k in ks ==> k in incoming
    requires Distinct(ks)
    ensures var r := MergeKeys(m, ks, incoming, combine);
      && (forall k :: k in m.values && k !in ks ==> k in r.values && r.values[k] == m.values[k])
      && (forall k :: k in ks && k in m.values ==> k in r.values && r.values[k] == combine(m.values[k], incoming[k]))
      && (forall k :: k in ks && k !in m.values ==> k in r.values && r.values[k] == incoming[k])
    decreases |ks|
  {
    if |ks| > 0 {
      MergeKeysUnfold(m, ks, incoming, combine);
      var k := ks[0];
      var m' := if k in m.values then Insert(m, k, combine(m.values[k], incoming[k])) else Insert(m, k, incoming[k]);
      DistinctTail(ks);
      MergeKeysValues(m', ks[1..], incoming, combine);
    }
  }

  /** Merging never drops a key, keeps the existing keys first and in order,
      appends the new keys in the order of `other`, combines colliding values
      and takes new ones as they are. */
  lemma MergeWithSpec<K, V>(m: OrdMap<K, V>, other: OrdMap<K, V>, combine: (V, V) -> V)
    ensures var r := MergeWith(m, other, combine);
      && (forall k :: k in r.values <==> k in m.values || k in other.values)
      && (forall k :: k in r.values ==> r.values[k] == MergedValue(m, other, combine, k))
      && r.keys == m.keys + NewKeys(other.keys, m.values.Keys)
  {
    assert forall k :: k in other.keys <==> k in other.values by {
      forall k ensures k in other.keys <==> k in other.values {
        if k in other.keys {
          var i :| 0 <= i < |other.keys| && other.keys[i] == k;
        }
      }
    }
    MergeKeysKeys(m, other.keys, other.values, combine);
    MergeKeysOrder(m, other.keys, other.values, combine);
    MergeKeysValues(m, other.keys, other.values, combine);
    var r := MergeWith(m, other, combine);
    forall k | k in r.values
      ensures r.values[k] == MergedValue(m, other, combine, k)
    {
      if k in other.values {
        assert k in other.keys;
      } else {
        assert k !in other.keys;
      }
    }
  }

  /** An ordered map has exactly as many keys in its order as in its domain. */
  lemma DistinctKeysCount<K, V>(m: OrdMap<K, V>)
    ensures |m.keys| == |m.values.Keys|
  {
    DistinctSeqSetSize(m.keys);
  }

  lemma {:induction false} DistinctSeqSetSize<K>(ks: seq<K>)
    requires Distinct(ks)
    ensures |set i | 0 <= i < |ks| :: ks[i]| == |ks|
  {
    if |ks| > 0 {
      var front := ks[..|ks| - 1];
      assert Distinct(front);
      DistinctSeqSetSize(front);
      assert (set i | 0 <= i < |ks| :: ks[i]) == (set i | 0 <= i < |front| :: front[i]) + {ks[|ks| - 1]};
    }
  }

  /** Merging a map into itself, with a combination that leaves equal values
      alone, gives the map back: same keys, same order, same values. */
  lemma MergeWithSelf<K, V>(m: OrdMap<K, V>, combine: (V, V) -> V)
    requires forall k :: k in m.values ==> combine(m.values[k], m.values[k]) == m.values[k]
    ensures MergeWith(m, m, combine) == m
  {
    MergeWithSpec(m, m, combine);
    var r := MergeWith(m, m, combine);
    SelfMergedValues(m, r, combine);
    assert r.values == m.values;
    NewKeysAllKnown(m.keys, m.values.Keys);
    assert r.keys == m.keys + [];
  }

  /** Nothing is new when every key is already known. */
  lemma {:induction false} NewKeysAllKnown<K>(ks: seq<K>, known: set<K>)
    requires forall x :: x in ks ==> x in known
    ensures NewKeys(ks, known) == []
  {
    if |ks| > 0 {
      assert ks[0] in ks;
      assert forall x :: x in ks[1..] ==> x in ks;
      NewKeysAllKnown(ks[1..], known);
    }
  }

  /** The values `MergeWith` leaves when both sides are the same map. */
  lemma SelfMergedValues<K, V>(m: OrdMap<K, V>, r: OrdMap<K, V>, combine: (V, V) -> V)
    requires forall k :: k in m.values ==> combine(m.values[k], m.values[k]) == m.values[k]
    requires forall k :: k in r.values <==> k in m.values || k in m.values
    requires forall k :: k in r.values ==> r.values[k] == MergedValue(m, m, combine, k)
    ensures r.values == m.values
  {
    assert forall k :: k in r.values <==> k in m.values;
  }
}
