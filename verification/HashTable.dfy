/** The open-addressed hash table of make: double hashing over a power-of-two vector, deletion
    by tombstone, and rehashing when fewer than a sixteenth of the slots are empty.  Seen from
    outside it is a finite map. */
module HashTables {
  import opened Wrappers
  import opened ProbeMath
  import opened Slots
  import opened RoundUp

  class HashTable<K(==,!new), T(0)> {
    const hs: Hashing<K, T>
    var vec: array<Slot<T>>
    var size: nat
    var capacity: nat
    var fill: nat
    var emptySlots: nat

    /** The bindings the table stands for. */
    ghost var contents: map<K, T>

    /** What holds of the vector itself, also halfway through a rehash. */
    ghost predicate Shape()
      reads this, vec
    {
      vec.Length == size && IsPow2(size) && size <= TWO_TO_32 &&
      WellPlaced(hs, vec[..]) && Represents(hs, vec[..], contents)
    }

    /** The counters are the true counts. */
    ghost predicate Counted()
      reads this, vec
    {
      capacity == size - size / 16 && fill == CountLive(vec[..]) && emptySlots == CountNull(vec[..])
    }

    /** The invariant between calls: from sixteen slots on, a sixteenth of them is empty. */
    ghost predicate Valid()
      reads this, vec
    {
      Shape() && Counted() && (size >= 16 ==> emptySlots >= size / 16)
    }

    /** A lookup for `k` ends; see Slots.LookupEndsExactly. */
    ghost predicate Searchable(k: K)
      reads this, vec
    {
      HasNull(vec[..]) || k in contents
    }

    /** From sixteen slots on, the load limit makes every lookup end. */
    lemma {:induction false} LookupsEnd(k: K)
      requires Valid() && size >= 16
      ensures Searchable(k)
    {
      CountBounds(vec[..]);
    }

    /** A table that began with at least `least` slots, after so many insertions: well below the limit
        of 32-bit probe positions, and with fewer than sixteen slots, which it then still has, no more
        of them in use than items were inserted. */
    ghost predicate Roomy(least: nat, inserted: nat)
      reads this, vec
    {
      Valid() && least <= size <= TWO_TO_31 && |contents| <= inserted &&
      (size < 16 ==> emptySlots + inserted >= least)
    }

    /** With fewer insertions than slots, too, lookups end. */
    lemma {:induction false} RoomySearch(least: nat, inserted: nat, k: K)
      requires Roomy(least, inserted) && (least >= 16 || inserted < least)
      ensures Searchable(k)
    {
      CountBounds(vec[..]);
    }

    /** ht_fill counts the bindings. */
    lemma {:induction false} FillCounts()
      requires Valid()
      ensures fill == |contents|
    {
      LiveIsCardinality(hs, vec[..], contents);
    }

    /** hash_init */
    constructor (requested: nat, hashing: Hashing<K, T>)
      requires requested < TWO_TO_31
      ensures Valid() && fresh(vec) && contents == map[] && hs == hashing
      ensures size == RoundUp2(requested) && requested < size <= TWO_TO_31 && emptySlots == size && fill == 0
    {
      var n := RoundUp2(requested);
      RoundUp2Exact(requested);
      hs, size, emptySlots := hashing, n, n;
      capacity, fill, contents := n - n / 16, 0, map[];
      vec := new Slot<T>[n](_ => Null);
      new;
      CountAllNull(vec[..]);
      RoundUpBelow31(requested);
    }

    /** hash_find_slot */
    method FindSlot(k: K) returns (i: nat)
      requires Shape() && Searchable(k)
      ensures i < size
      ensures k in contents ==> KeyAt(hs, vec[..], i, k)
      ensures k !in contents ==> FirstVacant(hs, vec[..], k, i)
    {
      ghost var s := vec[..];
      ghost var start, step := hs.Start(k), hs.Step(k);
      ghost var n: nat := 0;
      var deletedSlot: Option<nat> := None;
      var h := hs.Start(k);
      var h2 := hs.Step(k);
      h := h % size;
      LookupEndsExactly(hs, s, k);
      ghost var last: nat :| StopsAt(hs, s, k, last);
      while true
        invariant h < size && h == Probe(start, step, size, n) && n <= last
        invariant forall m: nat :: m < n ==> !s[Probe(start, step, size, m)].Null?
        invariant forall m: nat :: m < n ==> !KeyAt(hs, s, Probe(start, step, size, m), k)
        invariant deletedSlot.None? ==> forall m: nat :: m < n ==> s[Probe(start, step, size, m)].Live?
        invariant deletedSlot.Some? ==> FirstVacant(hs, s, k, deletedSlot.value)
        decreases last - n
      {
        i := h;
        match vec[i] {
          case Null =>
            assert OnPath(hs, s, k, i, n);
            NullMeansAbsent(hs, s, k, i, n);
            if deletedSlot.Some? {
              i := deletedSlot.value;
            }
            return;
          case Deleted =>
            if deletedSlot.None? {
              assert OnPath(hs, s, k, i, n);
              deletedSlot := Some(i);
            }
          case Live(item) =>
            if hs.key(item) == k {
              assert KeyAt(hs, s, i, k);
              return;
            }
        }
        ProbeNext(start, step, size, n);
        h := (h + h2) % TWO_TO_32 % size;
        n := n + 1;
      }
    }

    /** hash_find_item */
    method FindItem(k: K) returns (r: Option<T>)
      requires Valid() && Searchable(k)
      ensures r == if k in contents then Some(contents[k]) else None
    {
      var i := FindSlot(k);
      r := match vec[i] case Live(item) => Some(item) case _ => None;
      if k in contents {
        assert KeyAt(hs, vec[..], i, k);
      }
    }

    /** Puts an item into its slot and counts it. */
    method Store(item: T, slot: nat)
      requires Valid() && slot < size
      requires if hs.key(item) in contents then KeyAt(hs, vec[..], slot, hs.key(item))
               else FirstVacant(hs, vec[..], hs.key(item), slot)
      modifies this`contents, this`fill, this`emptySlots, vec
      ensures Shape() && Counted() && contents == old(contents)[hs.key(item) := item] && vec[slot] == Live(item)
      ensures emptySlots + 1 >= old(emptySlots)
    {
      ghost var s := vec[..];
      CountUpdate(s, slot, Live(item));
      StoreKeeps(hs, s, contents, slot, item);
      match vec[slot] {
        case Null =>
          CountBounds(s);
          fill, emptySlots := fill + 1, emptySlots - 1;
        case Deleted =>
          fill := fill + 1;
        case Live(_) =>
      }
      vec[slot] := Live(item);
      assert vec[..] == s[slot := Live(item)];
      contents := contents[hs.key(item) := item];
    }

    /** hash_insert_at: `slot` is what FindSlot gave for the item's key. */
    method InsertAt(item: T, slot: nat) returns (r: nat)
      requires Valid() && size <= TWO_TO_31
      requires slot < size
      requires if hs.key(item) in contents then KeyAt(hs, vec[..], slot, hs.key(item))
               else FirstVacant(hs, vec[..], hs.key(item), slot)
      modifies this, vec
      ensures Valid() && (vec == old(vec) || fresh(vec))
      ensures contents == old(contents)[hs.key(item) := item]
      ensures r < size && vec[r] == Live(item)
      ensures size == old(size) || (size == 2 * old(size) && |contents| >= old(size) - old(size) / 16)
      ensures size < 16 ==> size == old(size) && emptySlots + 1 >= old(emptySlots)
    {
      Store(item, slot);
      if emptySlots < size - capacity {
        Rehash();
        CountBounds(vec[..]);
        LiveIsCardinality(hs, vec[..], contents);
        r := FindSlot(hs.key(item));
        assert KeyAt(hs, vec[..], r, hs.key(item));
      } else {
        r := slot;
      }
    }

    /** hash_insert */
    method Insert(item: T) returns (displaced: Option<T>)
      requires Valid() && size <= TWO_TO_31 && Searchable(hs.key(item))
      modifies this, vec
      ensures Valid() && (vec == old(vec) || fresh(vec))
      ensures contents == old(contents)[hs.key(item) := item]
      ensures displaced == if hs.key(item) in old(contents) then Some(old(contents)[hs.key(item)]) else None
      ensures size == old(size) || (size == 2 * old(size) && |contents| >= old(size) - old(size) / 16)
      ensures size < 16 ==> size == old(size) && emptySlots + 1 >= old(emptySlots)
    {
      var slot := FindSlot(hs.key(item));
      displaced := match vec[slot] case Live(old_item) => Some(old_item) case _ => None;
      if hs.key(item) in contents {
        assert KeyAt(hs, vec[..], slot, hs.key(item));
      }
      var _ := InsertAt(item, slot);
    }

    /** hash_delete and hash_delete_at */
    method Delete(k: K) returns (removed: Option<T>)
      requires Valid() && Searchable(k)
      modifies this, vec
      ensures Valid() && vec == old(vec) && size == old(size) && emptySlots == old(emptySlots)
      ensures contents == old(contents) - {k}
      ensures removed == if k in old(contents) then Some(old(contents)[k]) else None
    {
      var slot := FindSlot(k);
      ghost var s := vec[..];
      match vec[slot] {
        case Live(item) =>
          assert KeyAt(hs, s, slot, k);
          EraseKeeps(hs, s, contents, slot, k);
          CountUpdate(s, slot, Deleted);
          CountLivePositive(s, slot);
          vec[slot] := Deleted;
          assert vec[..] == s[slot := Deleted];
          fill := fill - 1;
          contents := contents - {k};
          removed := Some(item);
        case _ =>
          assert k !in contents;
          removed := None;
      }
    }

    /** One step of the rehash loop: an item goes to its slot in the fresh vector. */
    method Place(item: T)
      requires Shape() && hs.key(item) !in contents && CountNull(vec[..]) > 0
      requires forall i :: 0 <= i < size ==> !vec[i].Deleted?
      modifies this`contents, vec
      ensures Shape() && contents == old(contents)[hs.key(item) := item]
      ensures CountLive(vec[..]) == old(CountLive(vec[..])) + 1
      ensures CountNull(vec[..]) == old(CountNull(vec[..])) - 1
      ensures forall i :: 0 <= i < size ==> !vec[i].Deleted?
    {
      ghost var t, k := vec[..], hs.key(item);
      CountBounds(t);
      var slot := FindSlot(hs.key(item));
      assert t[slot].Null?;
      CountUpdate(t, slot, Live(item));
      StoreKeeps(hs, t, contents, slot, item);
      vec[slot] := Live(item);
      assert vec[..] == t[slot := Live(item)];
      contents := contents[k := item];
    }

    /** The rehash loop: every item of the old vector is placed in the empty new one. */
    method MoveItems(oldVec: array<Slot<T>>, ghost all: map<K, T>)
      requires vec != oldVec && WellPlaced(hs, oldVec[..]) && Represents(hs, oldVec[..], all)
      requires CountLive(oldVec[..]) <= size
      requires Shape() && contents == map[] && forall i :: 0 <= i < size ==> vec[i].Null?
      modifies this`contents, vec
      ensures Shape() && contents == all
      ensures CountLive(vec[..]) == CountLive(oldVec[..])
      ensures CountNull(vec[..]) + CountLive(oldVec[..]) == size
    {
      ghost var s := oldVec[..];
      CountAllNull(vec[..]);
      for j := 0 to oldVec.Length
        invariant oldVec[..] == s && Shape() && Represents(hs, s[..j], contents)
        invariant CountLive(vec[..]) == CountLive(s[..j]) && CountNull(vec[..]) + CountLive(s[..j]) == size
        invariant forall i :: 0 <= i < size ==> !vec[i].Deleted?
      {
        CountStep(s, j);
        match oldVec[j] {
          case Live(item) =>
            PrefixBind(hs, s, contents, j);
            Place(item);
          case _ =>
            PrefixSkip(hs, s, contents, j);
        }
      }
      assert s[..oldVec.Length] == s;
      SameBindings(hs, s, contents, all);
    }

    /** A fresh vector of empty slots. */
    method Clear()
      requires IsPow2(size) && size <= TWO_TO_32
      modifies this`vec, this`contents
      ensures fresh(vec) && Shape() && contents == map[] && forall i :: 0 <= i < size ==> vec[i].Null?
    {
      hide IsPow2, WellPlaced, Represents;
      vec := new Slot<T>[size](_ => Null);
      contents := map[];
      NothingStored(hs, vec[..]);
    }

    static lemma {:induction false} RoomAgain(n: nat, live: nat)
      requires live <= n
      ensures live < n - n / 16 ==> n - live >= n / 16
      ensures 2 * n - live >= 2 * n / 16
    {
    }

    /** hash_rehash: every item moves to a fresh vector without tombstones, twice as large when
        the live items alone are at the load limit. */
    method Rehash()
      requires Shape() && Counted() && size <= TWO_TO_31 && emptySlots < size / 16
      modifies this, vec
      ensures Valid() && fresh(vec) && contents == old(contents)
      ensures fill == old(fill) && fill + emptySlots == size
      ensures size == if fill >= old(capacity) then 2 * old(size) else old(size)
    {
      var oldVec := vec;
      ghost var all := contents;
      CountBounds(vec[..]);
      RoomAgain(size, fill);
      hide WellPlaced, Represents, CountLive, CountNull;
      if fill >= capacity {
        Pow2Double(size);
        size := size * 2;
        capacity := size - size / 16;
      }
      Clear();
      MoveItems(oldVec, all);
      emptySlots := size - fill;
    }
  }
}
