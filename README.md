# AtomizedHashMap in Dafny

A model of `AtomizedHashMap`, a key-to-integer interner. Each key that is present owns one *atom*: the index of a slot in a reusable slot store (`Slab<T>`). That slot holds the key's value. Callers turn a key into its atom once (`atomize_key`) and then reach the value by atom (`get`, `get_mut`) without comparing keys again.

The model has three modules:

- `Slots` (slab.dfy) models the slot store as the value `Slab(entries: seq<Option<T>>)`. `Some(v)` is an occupied slot and `None` a vacant one. `|entries|` is the high-water mark. The store never shrinks. It has the operations the map uses: `vacant_entry().key()` (`VacantKey`), `VacantEntry::insert` (`Fill`), `slab[i] = v` (`Set`), `remove` (`Remove`), `get`/`get_mut` (`Get`), `len` and `is_empty`.
- `Atomizer` (atomizer.dfy) defines the relation `InStep` between the atomizer (`map<K, nat>`) and the store. It has three parts: every atom in the atomizer is an occupied slot, distinct keys hold distinct atoms, and every occupied slot is the atom of some key. The lemmas prove that each change the map makes keeps this relation. They also prove that under it, the number of occupied slots equals the number of keys.
- `AtomizedMap` (atomized_hash_map.dfy) holds the class `AtomizedHashMap` and the result type `InsertReplaceResult`. The class has the fields `values` and `atomizer`. Its invariant is `Valid()`: `InStep` holds, and the high-water mark is no larger than `peak`, a ghost field recording the most entries the map has held at once. `insert`, `insert_replace`, `remove` and `get_mut` are methods that reassign the fields. `atomize_key`, `get`, `len` and `is_empty` are functions that read them. A client method, `Example`, checks a walk-through (insert, conflict, replace, remove, slot reuse) against the contracts alone.

Atoms are `nat`. Rust's `usize` bound on them is not modelled.

## Model

| member | source | states |
|---|---|---|
| Slots.Slab.Empty | src/lib.rs:33 | a new store holds no values, has high-water mark 0, and every `get` on it is `None` |
| Slots.Slab.Get | src/lib.rs:72-74 | `get(i)` is `Some` exactly when slot `i` is occupied, and then it is that slot's value; any index at or above the high-water mark gives `None` |
| Slots.Slab.Len | src/lib.rs:78-80 | `len` is the number of occupied slots and never exceeds the high-water mark |
| Slots.Slab.IsEmpty | src/lib.rs:81-83 | the store's `is_empty` holds exactly when no slot is occupied |
| Slots.Slab.VacantKey | src/lib.rs:41-42 | the key `vacant_entry` names is a vacant slot or the high-water mark; it is the mark only when every slot is occupied, and then `len` equals the mark |
| Slots.Slab.Fill | src/lib.rs:44 | filling an available slot makes `get` there return the new value and leaves every other slot alone; the occupied set gains exactly that slot, so `len` grows by one; the mark grows by one only when the slot was the mark |
| Slots.Slab.Set | src/lib.rs:52 | overwriting an occupied slot changes only that slot's value; the occupied set, `len` and the mark stay the same |
| Slots.Slab.Remove | src/lib.rs:67 | removing from an occupied slot makes it vacant and leaves every other slot alone; `len` drops by one and the mark stays the same |
| Slots.GrowsOnlyWhenFull | src/lib.rs:41-44 | filling the slot `vacant_entry` names raises the mark only when no slot was vacant, so the mark never exceeds one more than the previous `len` or the old mark |
| Atomizer.ImageIsOccupied | src/lib.rs:7-8 | when the fields are in step, the atoms the atomizer holds are exactly the occupied slots |
| Atomizer.LenCountsKeys | src/lib.rs:78-80 | when the fields are in step, the store's `len` equals the number of keys |
| Atomizer.InsertKeepsStep | src/lib.rs:41-44 | for an absent key, the slot `vacant_entry` names is the atom of no key, and recording it for the key and filling it keeps the fields in step |
| Atomizer.ReplaceKeepsStep | src/lib.rs:51-52 | overwriting the slot of a present key keeps the fields in step |
| Atomizer.RemoveKeepsStep | src/lib.rs:64-68 | removing a present key from the atomizer and freeing its slot keeps the fields in step |
| AtomizedMap.InsertReplaceResult.Atom | src/lib.rs:22-27 | `atom()` returns the atom carried by `Inserted` or by `Replaced` |
| AtomizedMap.AtomizedHashMap.constructor | src/lib.rs:31-36 | a new map is valid and empty: no keys, `len() == 0`, `is_empty()`, and `atomize_key` and `get` give `None` everywhere |
| AtomizedMap.AtomizedHashMap.AtomizeKey | src/lib.rs:69-71 | `atomize_key(k)` is `Some(a)` exactly when `k` is present with atom `a`; in a valid map, `get(a)` is then `Some` |
| AtomizedMap.AtomizedHashMap.Get | src/lib.rs:72-74 | `get(a)` never fails: it is `Some` exactly when slot `a` is occupied, which in a valid map means some key holds `a`; atoms never issued or already freed give `None` |
| AtomizedMap.AtomizedHashMap.Len | src/lib.rs:78-80 | `len()` equals the number of present keys |
| AtomizedMap.AtomizedHashMap.IsEmpty | src/lib.rs:81-83 | `is_empty()` delegates to the store and holds exactly when no key is present |
| AtomizedMap.AtomizedHashMap.InsertVacant | src/lib.rs:40-46 | the new-key path: the atom was available and held by no key; afterwards the key maps to it, `get` returns the value, `len` grows by one, and the mark grows only if no slot was vacant |
| AtomizedMap.AtomizedHashMap.Insert | src/lib.rs:37-48 | a present key gives `Err(its atom)` and changes nothing; an absent key gives `Ok(a)` for a previously unclaimed available slot `a`, after which `atomize_key(k) == Some(a)`, `get(a) == Some(v)` and `len` has grown by one; the invariant is kept |
| AtomizedMap.AtomizedHashMap.InsertReplace | src/lib.rs:49-63 | a present key gives `Replaced(its atom)`; only that slot changes, to the new value, and the atomizer and `len` stay the same; an absent key gives `Inserted(a)` with the same effect as `insert`'s success path; the invariant is kept |
| AtomizedMap.AtomizedHashMap.Remove | src/lib.rs:64-68 | a present key returns `Some` of its stored value; afterwards the key is absent, its slot is vacant and `len` has dropped by one; an absent key returns `None` and changes nothing; the invariant is kept |
| AtomizedMap.AtomizedHashMap.GetMut | src/lib.rs:75-77 | `get_mut(a)` succeeds exactly when `get(a)` is `Some`; writing through it changes only slot `a`'s value and leaves the atomizer alone; otherwise nothing changes |

## Left out

- The hasher parameter `S` (`RandomState`, `BuildHasher`, `Hash`). Keys are compared by equality only, and hashing changes no observable behaviour. So `new` (src/lib.rs:12-14), `default` (src/lib.rs:86-93) and `with_hasher` (src/lib.rs:31-36) all become the one constructor, since each builds an empty store and an empty atomizer.
- Slots.Slab.VacantKey: the body picks the lowest vacant slot, but the contract promises only "a vacant slot, or the high-water mark when none is vacant". The store behind the source reuses freed slots in its own order and makes no promise about that order. Nothing in the model relies on which vacant slot is chosen.
- Borrowed references: `get` returns a copy of the value, not a `&T`. `get_mut` is modelled as the lookup together with one write through the `&mut T`. Lifetimes and aliasing are not modelled.
- Rust's `usize` width: atoms are unbounded `nat`. The store cannot in practice grow to `usize::MAX` slots.
- `#[derive(Debug)]` formatting.
- The real store's panics on a vacant index (`slab[i] = v` and `remove(i)`) become preconditions of `Set` and `Remove`. The map reaches these operations only for atoms the atomizer holds, and the invariant proves such atoms are occupied.
