/** AtomizedHashMap: a key-to-atom interner over a reusable slot store. Each
    present key owns one atom (a small slot index) and the slot holds the
    key's value, so callers may look a key up once and then address its value
    by atom. The hasher type parameter is not modelled: keys are compared by
    equality only. */
module AtomizedMap {
  import opened Wrappers
  import opened Slots
  import opened Atomizer

  /** What `insert_replace` did: filled a new slot, or overwrote the key's slot. */
  datatype InsertReplaceResult = Inserted(nat) | Replaced(nat) {

    /** The atom carried by either variant. */
    function Atom(): (a: nat)
      ensures this == Inserted(a) || this == Replaced(a)
    {
      match this
      case Inserted(a) => a
      case Replaced(a) => a
    }
  }

  function Max(a: nat, b: nat): nat
  {
    if a < b then b else a
  }

  class AtomizedHashMap<K(==), T> {
    var values: Slab<T>
    var atomizer: map<K, nat>
    /** The largest number of entries the map has held at once. */
    ghost var peak: nat

    /** The two fields are in step, and the slot store has grown no further
        than the largest number of entries held at once. */
    ghost predicate Valid()
      reads this
    {
      InStep(atomizer, values) && values.HighWater() <= peak
    }

    /** `new`, `default` and `with_hasher`: an empty map. */
    constructor ()
      ensures Valid()
      ensures atomizer == map[] && values.HighWater() == 0 && peak == 0
      ensures Len() == 0 && IsEmpty()
      ensures forall k :: AtomizeKey(k) == None
      ensures forall i: nat :: Get(i) == None
    {
      values := Slab.Empty();
      atomizer := map[];
      peak := 0;
    }

    /** `atomize_key`: the atom of `key`, if the key is present. */
    function AtomizeKey(key: K): (r: Option<nat>)
      reads this
      ensures r.Some? <==> key in atomizer
      ensures r.Some? ==> r.value == atomizer[key]
      ensures Valid() && r.Some? ==> Get(r.value).Some?
    {
      if key in atomizer then Some(atomizer[key]) else None
    }

    /** `get` (and the read side of `get_mut`): the value in slot `atom`, or
        `None` for an atom that is out of range, never issued, or freed. */
    function Get(atom: nat): (r: Option<T>)
      reads this
      ensures r.Some? <==> values.Occupied(atom)
      ensures atom >= values.HighWater() ==> r == None
      ensures Valid() ==> (r.Some? <==> exists k :: k in atomizer && atomizer[k] == atom)
    {
      values.Get(atom)
    }

    /** `len`: the number of occupied slots, which is the number of keys. */
    function Len(): (n: nat)
      reads this
      requires Valid()
      ensures n == |atomizer|
      ensures n <= values.HighWater()
    {
      LenCountsKeys(atomizer, values);
      values.Len()
    }

    /** `is_empty`: the store has no occupied slot, so no key is present. */
    function IsEmpty(): (b: bool)
      reads this
      requires Valid()
      ensures b <==> atomizer == map[]
    {
      ImageIsOccupied(atomizer, values);
      assert atomizer == map[] <==> atomizer.Values == {} by {
        if atomizer != map[] {
          var k :| k in atomizer;
          assert atomizer[k] in atomizer.Values;
        }
      }
      values.IsEmpty()
    }

    /** The new-key path shared by `insert` and `insert_replace`: take the
        slot `vacant_entry` names, record it as the key's atom, fill it. */
    method InsertVacant(key: K, value: T) returns (atom: nat)
      requires Valid() && key !in atomizer
      modifies this
      ensures Valid()
      ensures old(values).Available(atom)
      ensures forall k :: k in old(atomizer) ==> old(atomizer)[k] != atom
      ensures atomizer == old(atomizer)[key := atom]
      ensures values == old(values).Fill(atom, value)
      ensures values.HighWater() > old(values.HighWater()) ==> old(values.Len()) == old(values.HighWater())
      ensures AtomizeKey(key) == Some(atom) && Get(atom) == Some(value)
      ensures Len() == old(Len()) + 1
      ensures peak == Max(old(peak), Len())
    {
      InsertKeepsStep(atomizer, values, key, value);
      GrowsOnlyWhenFull(values, value);
      atom := values.VacantKey();
      atomizer := atomizer[key := atom];
      values := values.Fill(atom, value);
      LenCountsKeys(atomizer, values);
      peak := Max(peak, values.Len());
    }

    /** `insert`: a new key gets a vacant slot and `Ok(atom)`; a present key
        changes nothing and reports its atom as `Err(atom)`. */
    method Insert(key: K, value: T) returns (r: Result<nat, nat>)
      requires Valid()
      modifies this
      ensures Valid()
      ensures key in old(atomizer) ==>
                && r == Err(old(atomizer)[key])
                && atomizer == old(atomizer) && values == old(values) && peak == old(peak)
      ensures key !in old(atomizer) ==>
                && r.Ok?
                && old(values).Available(r.value)
                && (forall k :: k in old(atomizer) ==> old(atomizer)[k] != r.value)
                && atomizer == old(atomizer)[key := r.value]
                && values == old(values).Fill(r.value, value)
                && (values.HighWater() > old(values.HighWater()) ==> old(values.Len()) == old(values.HighWater()))
                && AtomizeKey(key) == Some(r.value) && Get(r.value) == Some(value)
                && Len() == old(Len()) + 1
                && peak == Max(old(peak), Len())
    {
      match AtomizeKey(key)
      case Some(previous) =>
        r := Err(previous);
      case None =>
        var atom := InsertVacant(key, value);
        r := Ok(atom);
    }

    /** `insert_replace`: a present key has its slot overwritten in place
        (`Replaced`); a new key takes the same path as `insert` (`Inserted`). */
    method InsertReplace(key: K, value: T) returns (r: InsertReplaceResult)
      requires Valid()
      modifies this
      ensures Valid()
      ensures key in old(atomizer) ==>
                && r == Replaced(old(atomizer)[key])
                && atomizer == old(atomizer)
                && values == old(values).Set(r.Atom(), value)
                && Get(r.Atom()) == Some(value)
                && (forall i: nat :: i != r.Atom() ==> Get(i) == old(Get(i)))
                && Len() == old(Len()) && peak == old(peak)
      ensures key !in old(atomizer) ==>
                && r.Inserted?
                && old(values).Available(r.Atom())
                && (forall k :: k in old(atomizer) ==> old(atomizer)[k] != r.Atom())
                && atomizer == old(atomizer)[key := r.Atom()]
                && values == old(values).Fill(r.Atom(), value)
                && (values.HighWater() > old(values.HighWater()) ==> old(values.Len()) == old(values.HighWater()))
                && AtomizeKey(key) == Some(r.Atom()) && Get(r.Atom()) == Some(value)
                && Len() == old(Len()) + 1
                && peak == Max(old(peak), Len())
    {
      match AtomizeKey(key)
      case Some(atom) =>
        ReplaceKeepsStep(atomizer, values, key, value);
        values := values.Set(atom, value);
        r := Replaced(atom);
      case None =>
        var atom := InsertVacant(key, value);
        r := Inserted(atom);
    }

    /** `remove`: a present key is dropped, its slot freed and its value
        returned; an absent key gives `None` and changes nothing. */
    method Remove(key: K) returns (r: Option<T>)
      requires Valid()
      modifies this
      ensures Valid()
      ensures peak == old(peak)
      ensures key !in old(atomizer) ==>
                r == None && atomizer == old(atomizer) && values == old(values)
      ensures key in old(atomizer) ==>
                var atom := old(atomizer)[key];
                && r.Some? && r == old(Get(atom))
                && atomizer == old(atomizer) - {key}
                && values == old(values).Remove(atom)
                && AtomizeKey(key) == None && Get(atom) == None
                && Len() == old(Len()) - 1
    {
      if key in atomizer {
        var atom := atomizer[key];
        RemoveKeepsStep(atomizer, values, key);
        atomizer := atomizer - {key};
        r := values.Get(atom);
        values := values.Remove(atom);
      } else {
        r := None;
      }
    }

    /** `get_mut` followed by a write through the reference it returns: when
        slot `atom` is occupied its value becomes `value`; otherwise nothing
        changes. `found` says whether `get_mut` returned `Some`. */
    method GetMut(atom: nat, value: T) returns (found: bool)
      requires Valid()
      modifies this
      ensures Valid()
      ensures found <==> old(Get(atom)).Some?
      ensures atomizer == old(atomizer) && peak == old(peak)
      ensures values == if found then old(values).Set(atom, value) else old(values)
      ensures found ==> Get(atom) == Some(value)
      ensures forall i: nat :: i != atom ==> Get(i) == old(Get(i))
    {
      found := values.Occupied(atom);
      if found {
        ghost var k :| k in atomizer && atomizer[k] == atom;
        ReplaceKeepsStep(atomizer, values, k, value);
        values := values.Set(atom, value);
      }
    }
  }

  /** A walk-through (insert, conflict, replace, remove, slot reuse),
      checked against the contracts above alone. */
  method Example()
  {
    var m := new AtomizedHashMap<string, int>();
    var r := m.Insert("a", 1);
    assert r == Ok(0);
    assert m.AtomizeKey("a") == Some(0);
    r := m.Insert("a", 2);
    assert r == Err(0) && m.Get(0) == Some(1);
    var rr := m.InsertReplace("a", 2);
    assert rr == Replaced(0) && m.Get(0) == Some(2);
    var v := m.Remove("a");
    assert v == Some(2) && m.Get(0) == None && m.AtomizeKey("a") == None;
    r := m.Insert("b", 5);
    assert r == Ok(0);
    assert m.Len() == 1;
  }
}
