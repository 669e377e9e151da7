/** A model of the reusable slot store (`Slab<T>`) that AtomizedHashMap keeps
    its values in. Slot `i` is `entries[i]`: `Some(v)` when occupied, `None`
    when vacant. `|entries|` is the high-water mark: slots at or above it were
    never handed out. Removing a value leaves its slot vacant; the store never
    shrinks. Only the operations AtomizedHashMap uses are modelled, and the
    choice of slot for a new value is promised only to be a vacant slot, or
    the high-water mark when no slot is vacant. */
module Slots {
  import opened Wrappers

  datatype Slab<T> = Slab(entries: seq<Option<T>>) {

    /** The smallest slot index never handed out. */
    function HighWater(): nat
    {
      |entries|
    }

    predicate Occupied(i: nat)
    {
      i < |entries| && entries[i].Some?
    }

    /** A slot a new value may go into: a vacant one, or the high-water mark. */
    predicate Available(i: nat)
    {
      i <= |entries| && (i < |entries| ==> entries[i].None?)
    }

    /** The indices of the occupied slots. */
    function Keys(): (ks: set<nat>)
      ensures forall i: nat :: i in ks <==> Occupied(i)
    {
      set i: nat | i < |entries| && entries[i].Some?
    }

    /** The number of occupied slots (`Slab::len`). */
    function Len(): (n: nat)
      ensures n <= HighWater()
      ensures n == |Keys()|
    {
      BelowSize(Keys(), |entries|);
      |Keys()|
    }

    /** `Slab::is_empty`: no slot is occupied. */
    function IsEmpty(): (b: bool)
      ensures b <==> Keys() == {}
    {
      Len() == 0
    }

    /** A fresh store (`Slab::new`). */
    static function Empty(): (s: Slab<T>)
      ensures s.HighWater() == 0 && s.Len() == 0
      ensures forall i: nat :: s.Get(i) == None
    {
      Slab([])
    }

    /** `Slab::get` / `Slab::get_mut`: the value in slot `i`, or `None` when
        `i` is vacant or was never handed out. */
    function Get(i: nat): (r: Option<T>)
      ensures r.Some? <==> Occupied(i)
      ensures r.Some? ==> entries[i] == r
      ensures i >= HighWater() ==> r == None
    {
      if i < |entries| then entries[i] else None
    }

    /** The key `vacant_entry().key()` reports: a vacant slot when there is
        one, and the high-water mark only when every slot is occupied. */
    function VacantKey(): (i: nat)
      ensures Available(i)
      ensures i == HighWater() ==> forall j :: 0 <= j < |entries| ==> entries[j].Some?
      ensures i == HighWater() ==> Len() == HighWater()
    {
      var i := FirstVacantFrom(0);
      if i == |entries| then
        FullSize(this);
        i
      else
        i
    }

    function FirstVacantFrom(j: nat): (i: nat)
      requires j <= |entries|
      ensures j <= i <= |entries|
      ensures i < |entries| ==> entries[i].None?
      ensures forall k :: j <= k < i ==> entries[k].Some?
      decreases |entries| - j
    {
      if j == |entries| || entries[j].None? then j else FirstVacantFrom(j + 1)
    }

    /** `VacantEntry::insert`: put `v` into the available slot `i`. */
    function Fill(i: nat, v: T): (r: Slab<T>)
      requires Available(i)
      ensures r.Get(i) == Some(v)
      ensures forall j: nat :: j != i ==> r.Get(j) == Get(j)
      ensures r.Keys() == Keys() + {i}
      ensures r.Len() == Len() + 1
      ensures r.HighWater() == if i < HighWater() then HighWater() else HighWater() + 1
    {
      var r := if i == |entries| then Slab(entries + [Some(v)]) else Slab(entries[i := Some(v)]);
      assert r.Keys() == Keys() + {i};
      r
    }

    /** `slab[i] = v`: overwrite the value in the occupied slot `i`. */
    function Set(i: nat, v: T): (r: Slab<T>)
      requires Occupied(i)
      ensures r.Get(i) == Some(v)
      ensures forall j: nat :: j != i ==> r.Get(j) == Get(j)
      ensures r.Keys() == Keys()
      ensures r.Len() == Len()
      ensures r.HighWater() == HighWater()
    {
      var r := Slab(entries[i := Some(v)]);
      assert r.Keys() == Keys();
      r
    }

    /** `Slab::remove` without its result: the store with slot `i` made
        vacant. The value it held is `Get(i)` of the old store. */
    function Remove(i: nat): (r: Slab<T>)
      requires Occupied(i)
      ensures r.Get(i) == None
      ensures forall j: nat :: j != i ==> r.Get(j) == Get(j)
      ensures r.Keys() == Keys() - {i}
      ensures r.Len() == Len() - 1
      ensures r.HighWater() == HighWater()
    {
      var r := Slab(entries[i := None]);
      assert r.Keys() == Keys() - {i};
      r
    }
  }

  /** The indices below `n`. */
  function Below(n: nat): (s: set<nat>)
    ensures forall i: nat :: i in s <==> i < n
    ensures |s| == n
  {
    if n == 0 then {} else Below(n - 1) + {n - 1}
  }

  lemma {:induction false} SubsetSize<X>(a: set<X>, b: set<X>)
    requires a <= b
    ensures |a| <= |b|
  {
    if a != {} {
      var x :| x in a;
      SubsetSize(a - {x}, b - {x});
    }
  }

  /** A set of indices below `n` has at most `n` members. */
  lemma BelowSize(s: set<nat>, n: nat)
    requires forall i :: i in s ==> i < n
    ensures |s| <= n
  {
    SubsetSize(s, Below(n));
  }

  /** A store with no vacant slot holds as many values as its high-water mark. */
  lemma FullSize<T>(s: Slab<T>)
    requires forall j :: 0 <= j < |s.entries| ==> s.entries[j].Some?
    ensures |s.Keys()| == s.HighWater()
  {
    assert s.Keys() == Below(|s.entries|);
  }

  /** A statement about the store alone, used by the map's new-key path:
      filling the slot `vacant_entry` names raises the high-water mark only
      when every slot was occupied, so the mark never exceeds the largest
      number of values the store has held at once. */
  lemma GrowsOnlyWhenFull<T>(s: Slab<T>, v: T)
    ensures s.Fill(s.VacantKey(), v).HighWater() > s.HighWater() ==> s.Len() == s.HighWater()
    ensures s.Fill(s.VacantKey(), v).HighWater() <= if s.HighWater() < s.Len() + 1 then s.Len() + 1 else s.HighWater()
  {
  }
}
