/** Whole runs of the hash table: whatever sequence of operations is made, the answers are those
    of a finite map. */
module HashRuns {
  import opened Wrappers
  import opened SetSizes
  import opened ProbeMath
  import opened Slots
  import opened RoundUp
  import opened HashTables

  datatype Op<K, T> = InsertOp(item: T) | DeleteOp(key: K) | FindOp(key: K)

  /** The key an operation is about. */
  function KeyOf<K, T>(hs: Hashing<K, T>, op: Op<K, T>): K {
    match op case InsertOp(item) => hs.key(item) case DeleteOp(key) => key case FindOp(key) => key
  }

  /** What one operation does to a finite map, and what it answers. */
  function Apply<K, T>(hs: Hashing<K, T>, m: map<K, T>, op: Op<K, T>): (map<K, T>, Option<T>) {
    var k := KeyOf(hs, op);
    var found := if k in m then Some(m[k]) else None;
    match op
    case InsertOp(item) => (m[k := item], found)
    case DeleteOp(_) => (m - {k}, found)
    case FindOp(_) => (m, found)
  }

  /** The map after a run. */
  function After<K, T>(hs: Hashing<K, T>, ops: seq<Op<K, T>>): map<K, T> {
    if ops == [] then map[]
    else Apply(hs, After(hs, ops[..|ops| - 1]), ops[|ops| - 1]).0
  }

  /** The item bound to `k` by the last insertion of that key, unless deleted since. */
  function LastBinding<K(==), T>(hs: Hashing<K, T>, ops: seq<Op<K, T>>, k: K): Option<T> {
    if ops == [] then None
    else
      var before := ops[..|ops| - 1];
      match ops[|ops| - 1]
      case InsertOp(item) => if hs.key(item) == k then Some(item) else LastBinding(hs, before, k)
      case DeleteOp(key) => if key == k then None else LastBinding(hs, before, k)
      case FindOp(_) => LastBinding(hs, before, k)
  }

  lemma {:induction false} AfterIsLastBinding<K, T>(hs: Hashing<K, T>, ops: seq<Op<K, T>>, k: K)
    ensures (if k in After(hs, ops) then Some(After(hs, ops)[k]) else None) == LastBinding(hs, ops, k)
  {
    if ops != [] {
      AfterIsLastBinding(hs, ops[..|ops| - 1], k);
    }
  }

  lemma {:induction false} StepOfRun<K, T>(hs: Hashing<K, T>, ops: seq<Op<K, T>>, i: nat)
    requires i < |ops|
    ensures Apply(hs, After(hs, ops[..i]), ops[i]) ==
            (After(hs, ops[..i + 1]), LastBinding(hs, ops[..i], KeyOf(hs, ops[i])))
  {
    AfterIsLastBinding(hs, ops[..i], KeyOf(hs, ops[i]));
    assert ops[..i + 1][..i] == ops[..i];
  }

  /** How many insertions a run makes. */
  function Insertions<K, T>(ops: seq<Op<K, T>>): nat {
    if ops == [] then 0
    else Insertions(ops[..|ops| - 1]) + (if ops[|ops| - 1].InsertOp? then 1 else 0)
  }

  lemma {:induction false} InsertionsSoFar<K, T>(ops: seq<Op<K, T>>, i: nat)
    requires i < |ops|
    ensures Insertions(ops[..i + 1]) == Insertions(ops[..i]) + (if ops[i].InsertOp? then 1 else 0)
    ensures Insertions(ops[..i + 1]) <= Insertions(ops)
    decreases |ops| - i
  {
    assert ops[..i + 1][..i] == ops[..i];
    if i + 1 < |ops| {
      InsertionsSoFar(ops, i + 1);
    } else {
      assert ops[..i + 1] == ops;
    }
  }

  /** One operation. */
  method Perform<K(==,!new), T(0)>(table: HashTable<K, T>, op: Op<K, T>, ghost least: nat, ghost inserted: nat)
      returns (answer: Option<T>)
    requires table.Roomy(least, inserted) && (least >= 16 || inserted < least) && inserted + 1 < 15 * 0x800_0000
    modifies table, table.vec
    ensures table.vec == old(table.vec) || fresh(table.vec)
    ensures table.Roomy(least, inserted + if op.InsertOp? then 1 else 0)
    ensures (table.contents, answer) == Apply(table.hs, old(table.contents), op)
  {
    table.RoomySearch(least, inserted, KeyOf(table.hs, op));
    CardinalityGrows(table.hs, table.contents, op);
    match op {
      case InsertOp(item) => answer := table.Insert(item);
      case DeleteOp(key) => answer := table.Delete(key);
      case FindOp(key) => answer := table.FindItem(key);
    }
    if table.size < TWO_TO_32 {
      Pow2Below32(table.size);
    }
  }

  /** Any run from an empty table of sixteen or more slots, or of more slots than the run makes
      insertions: every insertion returns the item it displaces, every deletion the item it removes
      and every lookup the item found, and in each case that is the last item inserted under an equal
      key.  The bound on the insertions is the number of items after which a table would outgrow its
      32-bit probe positions. */
  method Run<K(==,!new), T(0)>(hs: Hashing<K, T>, requested: nat, ops: seq<Op<K, T>>)
      returns (answers: seq<Option<T>>)
    requires requested < TWO_TO_31 && Insertions(ops) + 1 < 15 * 0x800_0000
    requires requested >= 8 || Insertions(ops) < RoundUp2(requested)
    ensures |answers| == |ops|
    ensures forall i :: 0 <= i < |ops| ==> answers[i] == LastBinding(hs, ops[..i], KeyOf(hs, ops[i]))
  {
    hide *;
    var table := new HashTable(requested, hs);
    ghost var least := table.size;
    assert least >= 16 || Insertions(ops) < least by { RoomAtFirst(requested); }
    assert ops[..0] == [];
    NoneYet(hs, ops[..0]);
    assert Answered(hs, ops, []) by { NoAnswers(hs, ops); }
    StillRoomy(table);
    answers := [];
    for i := 0 to |ops|
      invariant fresh(table) && fresh(table.vec) && table.hs == hs
      invariant table.Roomy(least, Insertions(ops[..i])) && table.contents == After(hs, ops[..i])
      invariant |answers| == i && Answered(hs, ops, answers)
    {
      StepOfRun(hs, ops, i);
      InsertionsSoFar(ops, i);
      var answer := Perform(table, ops[i], least, Insertions(ops[..i]));
      OneMoreAnswer(hs, ops, answers, answer);
      answers := answers + [answer];
    }
    AllAnswered(hs, ops, answers);
  }

  /** The answers so far are right. */
  ghost predicate Answered<K, T>(hs: Hashing<K, T>, ops: seq<Op<K, T>>, answers: seq<Option<T>>) {
    |answers| <= |ops| && forall j :: 0 <= j < |answers| ==> answers[j] == LastBinding(hs, ops[..j], KeyOf(hs, ops[j]))
  }

  lemma {:induction false} NoAnswers<K, T>(hs: Hashing<K, T>, ops: seq<Op<K, T>>)
    ensures Answered(hs, ops, [])
  {
  }

  lemma {:induction false} OneMoreAnswer<K, T>(hs: Hashing<K, T>, ops: seq<Op<K, T>>, answers: seq<Option<T>>, answer: Option<T>)
    requires Answered(hs, ops, answers) && |answers| < |ops|
    requires answer == LastBinding(hs, ops[..|answers|], KeyOf(hs, ops[|answers|]))
    ensures Answered(hs, ops, answers + [answer])
  {
    hide LastBinding, KeyOf;
  }

  lemma {:induction false} AllAnswered<K, T>(hs: Hashing<K, T>, ops: seq<Op<K, T>>, answers: seq<Option<T>>)
    requires Answered(hs, ops, answers)
    ensures forall j :: 0 <= j < |answers| ==> answers[j] == LastBinding(hs, ops[..j], KeyOf(hs, ops[j]))
  {
  }

  lemma {:induction false} NoneYet<K, T>(hs: Hashing<K, T>, ops: seq<Op<K, T>>)
    requires ops == []
    ensures After(hs, ops) == map[] && Insertions(ops) == 0
  {
  }

  lemma {:induction false} StillRoomy<K(!new), T(0)>(table: HashTable<K, T>)
    requires table.Valid() && table.size <= TWO_TO_31 && table.contents == map[] && table.emptySlots == table.size
    ensures table.Roomy(table.size, 0)
  {
  }

  lemma {:induction false} RoomAtFirst(requested: nat)
    requires requested < TWO_TO_31
    ensures requested >= 8 ==> RoundUp2(requested) >= 16
  {
    if requested >= 8 {
      RoundUpAtLeast16(requested);
    }
  }

  lemma {:induction false} CardinalityGrows<K, T>(hs: Hashing<K, T>, m: map<K, T>, op: Op<K, T>)
    ensures |Apply(hs, m, op).0| <= |m| + 1
  {
    var k := KeyOf(hs, op);
    assert Apply(hs, m, op).0.Keys <= m.Keys + {k};
    SubsetSize(Apply(hs, m, op).0.Keys, m.Keys + {k});
  }

  lemma {:induction false} RoundUpAtLeast16(n: nat)
    requires 8 <= n < TWO_TO_31
    ensures RoundUp2(n) >= 16
  {
    RoundUp2Exact(n);
    var k: nat :| RoundUp2(n) == Pow2(k);
    assert Pow2(3) == 8;
    if k <= 3 {
      Pow2Monotone(k, 3);
    } else {
      assert Pow2(4) == 16;
      Pow2Monotone(4, k);
    }
  }

  /** A table asked for no room has one slot and no load limit.  After one insertion it is full,
      and looking up any other key would probe that slot for ever. */
  method OneSlotTable<K(==,!new), T(0)>(hs: Hashing<K, T>, item: T, ghost k: K) returns (table: HashTable<K, T>)
    requires k != hs.key(item)
    ensures table.Valid() && table.hs == hs && table.contents == map[hs.key(item) := item]
    ensures table.size == 1 && forall n: nat :: !StopsAt(hs, table.vec[..], k, n)
  {
    table := new HashTable(0, hs);
    RoundUp2Exact(0);
    CountBounds(table.vec[..]);
    var _ := table.Insert(item);
    var s := table.vec[..];
    LiveIsCardinality(hs, s, table.contents);
    CountBounds(s);
    LookupEndsExactly(hs, s, k);
    ghost var m := table.contents;
    assert forall i :: KeyAt(hs, s, i, k) ==> k in m;
  }
}
