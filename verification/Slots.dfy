/** The slot vector of an open-addressed table with tombstones: which keys it holds, when a
    slot can be reached from its key's own probe path, and how the counters follow updates. */
module Slots {
  import opened ProbeMath

  /** An empty slot, a tombstone left by a deletion, or an item. */
  datatype Slot<T> = Null | Deleted | Live(item: T)

  /** How a table reads its items: the key of an item and the two hash functions of a key.
      Comparing two items is comparing their keys, so equal items always hash alike. */
  datatype Hashing<!K, !T> = Hashing(key: T -> K, hash1: K -> nat, hash2: K -> nat) {

    /** `hash_1` is held in an `unsigned int`. */
    function Start(k: K): nat {
      hash1(k) % TWO_TO_32
    }

    /** `hash_2` is held in an `unsigned int` and forced odd with `| 1`. */
    function Step(k: K): (d: nat)
      ensures d % 2 == 1 && d < TWO_TO_32
    {
      var d := hash2(k) % TWO_TO_32;
      if d % 2 == 0 then d + 1 else d
    }
  }

  ghost predicate HasNull<T>(s: seq<Slot<T>>) {
    exists i :: 0 <= i < |s| && s[i].Null?
  }

  ghost predicate KeyAt<K(!new), T>(hs: Hashing<K, T>, s: seq<Slot<T>>, i: int, k: K) {
    0 <= i < |s| && s[i].Live? && hs.key(s[i].item) == k
  }

  ghost predicate HasKey<K(!new), T>(hs: Hashing<K, T>, s: seq<Slot<T>>, k: K) {
    exists i :: KeyAt(hs, s, i, k)
  }

  /** Slot `i` is probe number `n` of key `k`, and no probe before it meets an empty slot. */
  ghost predicate OnPath<K(!new), T>(hs: Hashing<K, T>, s: seq<Slot<T>>, k: K, i: int, n: nat) {
    |s| > 0 && Probe(hs.Start(k), hs.Step(k), |s|, n) == i &&
    forall m: nat :: m < n ==> !s[Probe(hs.Start(k), hs.Step(k), |s|, m)].Null?
  }

  ghost predicate Reachable<K(!new), T>(hs: Hashing<K, T>, s: seq<Slot<T>>, k: K, i: int) {
    exists n: nat :: OnPath(hs, s, k, i, n)
  }

  /** Every item lies on its own probe path, and no key is live twice. */
  ghost predicate WellPlaced<K(!new), T>(hs: Hashing<K, T>, s: seq<Slot<T>>) {
    (forall i :: 0 <= i < |s| && s[i].Live? ==> Reachable(hs, s, hs.key(s[i].item), i)) &&
    (forall i, j, k :: KeyAt(hs, s, i, k) && KeyAt(hs, s, j, k) ==> i == j)
  }

  /** The vector holds exactly the bindings of `m`. */
  ghost predicate Represents<K(!new), T>(hs: Hashing<K, T>, s: seq<Slot<T>>, m: map<K, T>) {
    (forall i, k :: KeyAt(hs, s, i, k) ==> k in m && m[k] == s[i].item) &&
    (forall k :: k in m ==> HasKey(hs, s, k))
  }

  /** The slot where a key that is not in the table goes: the first probe that is not live. */
  ghost predicate FirstVacant<K(!new), T>(hs: Hashing<K, T>, s: seq<Slot<T>>, k: K, i: int) {
    0 <= i < |s| && !s[i].Live? &&
    exists n: nat :: OnPath(hs, s, k, i, n) &&
                     forall m: nat :: m < n ==> s[Probe(hs.Start(k), hs.Step(k), |s|, m)].Live?
  }

  ghost function CountNull<T>(s: seq<Slot<T>>): nat {
    if s == [] then 0 else (if s[0].Null? then 1 else 0) + CountNull(s[1..])
  }

  ghost function CountLive<T>(s: seq<Slot<T>>): nat {
    if s == [] then 0 else (if s[0].Live? then 1 else 0) + CountLive(s[1..])
  }

  lemma {:induction false} CountUpdate<T>(s: seq<Slot<T>>, i: nat, v: Slot<T>)
    requires i < |s|
    ensures CountNull(s[i := v]) == CountNull(s) - (if s[i].Null? then 1 else 0) + (if v.Null? then 1 else 0)
    ensures CountLive(s[i := v]) == CountLive(s) - (if s[i].Live? then 1 else 0) + (if v.Live? then 1 else 0)
  {
    if i == 0 {
      assert s[i := v][1..] == s[1..];
    } else {
      assert s[i := v][1..] == s[1..][i - 1 := v];
      CountUpdate(s[1..], i - 1, v);
    }
  }

  lemma {:induction false} CountBounds<T>(s: seq<Slot<T>>)
    ensures CountNull(s) + CountLive(s) <= |s|
    ensures CountNull(s) > 0 <==> HasNull(s)
  {
    if s == [] {
    } else {
      CountBounds(s[1..]);
      if HasNull(s) && !s[0].Null? {
        var i :| 0 <= i < |s| && s[i].Null?;
        assert s[1..][i - 1].Null?;
      }
      if HasNull(s[1..]) {
        var i :| 0 <= i < |s[1..]| && s[1..][i].Null?;
        assert s[i + 1].Null?;
      }
    }
  }

  lemma {:induction false} CountAllNull<T>(s: seq<Slot<T>>)
    requires forall i :: 0 <= i < |s| ==> s[i].Null?
    ensures CountNull(s) == |s| && CountLive(s) == 0
  {
    if s != [] {
      CountAllNull(s[1..]);
    }
  }

  lemma {:induction false} CountLiveAppend<T>(s: seq<Slot<T>>, v: Slot<T>)
    ensures CountLive(s + [v]) == CountLive(s) + (if v.Live? then 1 else 0)
  {
    if s == [] {
      assert s + [v] == [v];
    } else {
      assert (s + [v])[1..] == s[1..] + [v];
      CountLiveAppend(s[1..], v);
    }
  }

  lemma {:induction false} CountLiveSplit<T>(s: seq<Slot<T>>, t: seq<Slot<T>>)
    ensures CountLive(s + t) == CountLive(s) + CountLive(t)
  {
    if s == [] {
      assert s + t == t;
    } else {
      assert (s + t)[1..] == s[1..] + t;
      CountLiveSplit(s[1..], t);
    }
  }

  lemma {:induction false} CountStep<T>(s: seq<Slot<T>>, j: nat)
    requires j < |s|
    ensures CountLive(s[..j + 1]) == CountLive(s[..j]) + (if s[j].Live? then 1 else 0) <= CountLive(s)
  {
    assert s[..j + 1] == s[..j] + [s[j]];
    CountLiveAppend(s[..j], s[j]);
    assert s == s[..j + 1] + s[j + 1..];
    CountLiveSplit(s[..j + 1], s[j + 1..]);
  }

  /** Filling a slot with anything but an empty slot keeps every path open. */
  lemma {:induction false} PathKept<K(!new), T>(hs: Hashing<K, T>, s: seq<Slot<T>>, i: nat, v: Slot<T>, k: K, j: int)
    requires i < |s| && !v.Null?
    requires Reachable(hs, s, k, j)
    ensures Reachable(hs, s[i := v], k, j)
  {
    var n: nat :| OnPath(hs, s, k, j, n);
    assert OnPath(hs, s[i := v], k, j, n);
  }

  /** A vector of empty slots stands for the empty map. */
  lemma {:induction false} NothingStored<K(!new), T>(hs: Hashing<K, T>, s: seq<Slot<T>>)
    requires forall i :: 0 <= i < |s| ==> s[i].Null?
    ensures WellPlaced(hs, s) && Represents(hs, s, map[])
  {
  }

  /** Storing an item where its key already is, or in the key's first vacant slot, binds the
      key and disturbs nothing else. */
  lemma {:induction false} StoreKeeps<K(!new), T>(hs: Hashing<K, T>, s: seq<Slot<T>>, m: map<K, T>, i: nat, item: T)
    requires WellPlaced(hs, s) && Represents(hs, s, m)
    requires KeyAt(hs, s, i, hs.key(item)) ||
             (!HasKey(hs, s, hs.key(item)) && FirstVacant(hs, s, hs.key(item), i))
    ensures WellPlaced(hs, s[i := Live(item)]) && Represents(hs, s[i := Live(item)], m[hs.key(item) := item])
  {
    var s', k := s[i := Live(item)], hs.key(item);
    assert Reachable(hs, s, k, i);
    forall j | 0 <= j < |s'| && s'[j].Live?
      ensures Reachable(hs, s', hs.key(s'[j].item), j)
    {
      PathKept(hs, s, i, Live(item), hs.key(s'[j].item), j);
    }
    forall j, l | KeyAt(hs, s', j, l) && j != i
      ensures KeyAt(hs, s, j, l) && l != k
    {
      assert KeyAt(hs, s, j, l);
    }
    assert KeyAt(hs, s', i, k);
    forall l | l in m[k := item]
      ensures HasKey(hs, s', l)
    {
      if l != k {
        var j :| KeyAt(hs, s, j, l);
        assert KeyAt(hs, s', j, l);
      }
    }
  }

  /** Leaving a tombstone where a key was removes exactly that binding. */
  lemma {:induction false} EraseKeeps<K(!new), T>(hs: Hashing<K, T>, s: seq<Slot<T>>, m: map<K, T>, i: nat, k: K)
    requires WellPlaced(hs, s) && Represents(hs, s, m)
    requires KeyAt(hs, s, i, k)
    ensures WellPlaced(hs, s[i := Deleted]) && Represents(hs, s[i := Deleted], m - {k})
  {
    var s' := s[i := Deleted];
    forall j | 0 <= j < |s'| && s'[j].Live?
      ensures Reachable(hs, s', hs.key(s'[j].item), j)
    {
      PathKept(hs, s, i, Deleted, hs.key(s'[j].item), j);
    }
    forall j, l | KeyAt(hs, s', j, l)
      ensures KeyAt(hs, s, j, l) && l != k
    {
      assert KeyAt(hs, s, j, l);
    }
    forall l | l in m - {k}
      ensures HasKey(hs, s', l)
    {
      var j :| KeyAt(hs, s, j, l);
      assert KeyAt(hs, s', j, l);
    }
  }

  /** Taking one more slot of a vector into account, an item... */
  lemma {:induction false} PrefixBind<K(!new), T>(hs: Hashing<K, T>, s: seq<Slot<T>>, m: map<K, T>, j: nat)
    requires j < |s| && s[j].Live? && WellPlaced(hs, s) && Represents(hs, s[..j], m)
    ensures hs.key(s[j].item) !in m
    ensures Represents(hs, s[..j + 1], m[hs.key(s[j].item) := s[j].item])
  {
    var k := hs.key(s[j].item);
    assert KeyAt(hs, s, j, k);
    NewKey(hs, s, j);
    hide WellPlaced;
    forall i, l | KeyAt(hs, s[..j + 1], i, l) && i != j
      ensures KeyAt(hs, s[..j], i, l)
    {
    }
    assert KeyAt(hs, s[..j + 1], j, k);
    forall l | l in m
      ensures HasKey(hs, s[..j + 1], l)
    {
      var i :| KeyAt(hs, s[..j], i, l);
      assert KeyAt(hs, s[..j + 1], i, l);
    }
  }

  /** The key in slot `j` is in none before. */
  lemma {:induction false} NewKey<K(!new), T>(hs: Hashing<K, T>, s: seq<Slot<T>>, j: nat)
    requires j < |s| && s[j].Live? && WellPlaced(hs, s)
    ensures forall i, l :: KeyAt(hs, s[..j], i, l) ==> l != hs.key(s[j].item)
  {
    assert KeyAt(hs, s, j, hs.key(s[j].item));
    forall i, l | KeyAt(hs, s[..j], i, l)
      ensures l != hs.key(s[j].item)
    {
      assert KeyAt(hs, s, i, l);
    }
  }

  /** ... or none. */
  lemma {:induction false} PrefixSkip<K(!new), T>(hs: Hashing<K, T>, s: seq<Slot<T>>, m: map<K, T>, j: nat)
    requires j < |s| && !s[j].Live? && Represents(hs, s[..j], m)
    ensures Represents(hs, s[..j + 1], m)
  {
    forall i, l | KeyAt(hs, s[..j + 1], i, l)
      ensures KeyAt(hs, s[..j], i, l)
    {
    }
    forall l | l in m
      ensures HasKey(hs, s[..j + 1], l)
    {
      var i :| KeyAt(hs, s[..j], i, l);
      assert KeyAt(hs, s[..j + 1], i, l);
    }
  }

  lemma {:induction false} SameBindings<K(!new), T>(hs: Hashing<K, T>, s: seq<Slot<T>>, m: map<K, T>, m': map<K, T>)
    requires Represents(hs, s, m) && Represents(hs, s, m')
    ensures m == m'
  {
    forall k | k in m
      ensures k in m' && m'[k] == m[k]
    {
      var i :| KeyAt(hs, s, i, k);
    }
    forall k | k in m'
      ensures k in m
    {
      var i :| KeyAt(hs, s, i, k);
    }
  }

  /** The number of live slots is the number of bindings. */
  lemma {:induction false} LiveIsCardinality<K(!new), T>(hs: Hashing<K, T>, s: seq<Slot<T>>, m: map<K, T>)
    requires WellPlaced(hs, s) && Represents(hs, s, m)
    ensures CountLive(s) == |m|
    decreases CountLive(s)
  {
    if i :| 0 <= i < |s| && s[i].Live? {
      var k := hs.key(s[i].item);
      assert KeyAt(hs, s, i, k);
      EraseKeeps(hs, s, m, i, k);
      CountUpdate(s, i, Deleted);
      CountLivePositive(s, i);
      LiveIsCardinality(hs, s[i := Deleted], m - {k});
      assert (m - {k}).Keys == m.Keys - {k};
    } else {
      assert forall k :: k in m ==> HasKey(hs, s, k);
      assert m == map[];
      NoneLive(s);
    }
  }

  lemma {:induction false} CountLivePositive<T>(s: seq<Slot<T>>, i: nat)
    requires i < |s| && s[i].Live?
    ensures CountLive(s) > 0
  {
    if i > 0 {
      CountLivePositive(s[1..], i - 1);
    }
  }

  lemma {:induction false} NoneLive<T>(s: seq<Slot<T>>)
    requires forall i :: 0 <= i < |s| ==> !s[i].Live?
    ensures CountLive(s) == 0
  {
    if s != [] {
      NoneLive(s[1..]);
    }
  }

  // ----- when the probe loop stops

  /** The loop of a lookup for `k` leaves at probe `n`: it meets an empty slot or the key. */
  ghost predicate StopsAt<K(!new), T>(hs: Hashing<K, T>, s: seq<Slot<T>>, k: K, n: nat)
    requires |s| > 0
  {
    var i := Probe(hs.Start(k), hs.Step(k), |s|, n);
    s[i].Null? || KeyAt(hs, s, i, k)
  }

  /** A lookup ends if and only if the table has an empty slot or already holds the key.  The
      condition is the one the load limit is there to guarantee, and a table of fewer than
      sixteen slots, which never rehashes, can lose it. */
  lemma {:induction false} LookupEndsExactly<K(!new), T>(hs: Hashing<K, T>, s: seq<Slot<T>>, k: K)
    requires IsPow2(|s|) && WellPlaced(hs, s)
    ensures (exists n: nat :: StopsAt(hs, s, k, n)) <==> HasNull(s) || HasKey(hs, s, k)
  {
    if HasNull(s) {
      var i :| 0 <= i < |s| && s[i].Null?;
      var n := OddStepVisits(hs.Start(k), hs.Step(k), |s|, i);
      assert StopsAt(hs, s, k, n);
    } else if HasKey(hs, s, k) {
      var i :| KeyAt(hs, s, i, k);
      var n: nat :| OnPath(hs, s, k, i, n);
      assert StopsAt(hs, s, k, n);
    }
  }

  /** In a well-placed vector a lookup never passes the slot that holds its key: an empty slot
      on the path means that the key is absent. */
  lemma {:induction false} NullMeansAbsent<K(!new), T>(hs: Hashing<K, T>, s: seq<Slot<T>>, k: K, i: int, n: nat)
    requires WellPlaced(hs, s) && OnPath(hs, s, k, i, n) && s[i].Null?
    requires forall m: nat :: m < n ==> !KeyAt(hs, s, Probe(hs.Start(k), hs.Step(k), |s|, m), k)
    ensures !HasKey(hs, s, k)
  {
    forall j, p: nat | OnPath(hs, s, k, j, p)
      ensures !KeyAt(hs, s, j, k)
    {
    }
    assert forall j :: KeyAt(hs, s, j, k) ==> Reachable(hs, s, k, j);
  }
}
