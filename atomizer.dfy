/** The relation that keeps AtomizedHashMap's two fields in step: the
    atomizer (key to atom) is a bijection from the present keys onto the
    occupied slots of the slot store. The lemmas show that each way the map
    changes its fields keeps the relation, and that under it the store's
    count of occupied slots is the number of keys. */
module Atomizer {
  import opened Slots

  /** Every atom the atomizer holds is an occupied slot. */
  ghost predicate AtomsOccupied<K, T>(m: map<K, nat>, s: Slab<T>)
  {
    forall k :: k in m ==> s.Occupied(m[k])
  }

  /** Distinct keys hold distinct atoms. */
  ghost predicate Injective<K>(m: map<K, nat>)
  {
    forall k1, k2 :: k1 in m && k2 in m && k1 != k2 ==> m[k1] != m[k2]
  }

  /** Every occupied slot is the atom of some key. */
  ghost predicate SlotsClaimed<K, T>(m: map<K, nat>, s: Slab<T>)
  {
    forall i: nat :: s.Occupied(i) ==> exists k :: k in m && m[k] == i
  }

  ghost predicate InStep<K, T>(m: map<K, nat>, s: Slab<T>)
  {
    AtomsOccupied(m, s) && Injective(m) && SlotsClaimed(m, s)
  }

  /** An injective map has as many distinct values as keys. */
  lemma {:induction false} InjectiveImageSize<K>(m: map<K, nat>)
    requires Injective(m)
    ensures |m.Values| == |m|
  {
    if m != map[] {
      var k :| k in m;
      var m' := m - {k};
      assert m'.Keys == m.Keys - {k};
      InjectiveImageSize(m');
      assert m.Values == m'.Values + {m[k]};
      assert m[k] !in m'.Values;
    }
  }

  /** The atoms in use are exactly the occupied slots. */
  lemma ImageIsOccupied<K, T>(m: map<K, nat>, s: Slab<T>)
    requires InStep(m, s)
    ensures m.Values == s.Keys()
  {
  }

  /** `len()` counts the keys: the occupied slots are as many as the keys. */
  lemma LenCountsKeys<K, T>(m: map<K, nat>, s: Slab<T>)
    requires InStep(m, s)
    ensures s.Len() == |m|
  {
    ImageIsOccupied(m, s);
    InjectiveImageSize(m);
  }

  /** The slot `vacant_entry` names is the atom of no key, so recording it for
      a new key and filling it keeps the relation. */
  lemma InsertKeepsStep<K, T>(m: map<K, nat>, s: Slab<T>, k: K, v: T)
    requires InStep(m, s) && k !in m
    ensures s.VacantKey() !in m.Values
    ensures InStep(m[k := s.VacantKey()], s.Fill(s.VacantKey(), v))
  {
    var a := s.VacantKey();
    var m', s' := m[k := a], s.Fill(a, v);
    forall i: nat | s'.Occupied(i) ensures exists k' :: k' in m' && m'[k'] == i {
      if i == a {
        assert m'[k] == i;
      } else {
        assert s.Occupied(i);
        var k0 :| k0 in m && m[k0] == i;
        assert m'[k0] == i;
      }
    }
  }

  /** Overwriting the slot of a present key keeps the relation. */
  lemma ReplaceKeepsStep<K, T>(m: map<K, nat>, s: Slab<T>, k: K, v: T)
    requires InStep(m, s) && k in m
    ensures InStep(m, s.Set(m[k], v))
  {
  }

  /** Dropping a present key and freeing its slot keeps the relation. */
  lemma RemoveKeepsStep<K, T>(m: map<K, nat>, s: Slab<T>, k: K)
    requires InStep(m, s) && k in m
    ensures InStep(m - {k}, s.Remove(m[k]))
  {
    var a := m[k];
    var m', s' := m - {k}, s.Remove(a);
    forall i: nat | s'.Occupied(i) ensures exists k' :: k' in m' && m'[k'] == i {
      assert s.Occupied(i);
      var k0 :| k0 in m && m[k0] == i;
      assert k0 != k;
      assert m'[k0] == i;
    }
  }
}
