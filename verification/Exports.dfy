/** The export list of an image: frozen ordinals, new names, and the symbol hash of the import
    library, as in chapter 5 of the System V ABI ("Dynamic Linking", section "Hash Table"). */
module Exports {
  import opened Wrappers

  datatype Export = Export(name: Option<string>, address: nat, code: bool, size: int)

  const NO_EXPORT := Export(None, 0, true, 0)

  // ----- names in order

  predicate NotAfter(a: string, b: string) {
    a == "" || (b != "" && (a[0] < b[0] || (a[0] == b[0] && NotAfter(a[1..], b[1..]))))
  }

  /** Where two names first differ, the smaller character comes first; and a name comes before what it is the
      beginning of. */
  lemma {:induction false} FirstDifference(a: string, b: string, k: nat)
    requires k <= |a| && k <= |b| && a[..k] == b[..k]
    ensures k == |a| ==> NotAfter(a, b)
    ensures k == |b| < |a| ==> !NotAfter(a, b)
    ensures k < |a| && k < |b| && a[k] != b[k] ==> (NotAfter(a, b) <==> a[k] < b[k])
  {
    if k > 0 {
      assert a[0] == a[..k][0] && b[0] == b[..k][0];
      assert a[1..][..k - 1] == a[..k][1..] && b[1..][..k - 1] == b[..k][1..];
      FirstDifference(a[1..], b[1..], k - 1);
    }
  }

  lemma {:induction false} NotAfterTotal(a: string, b: string)
    ensures NotAfter(a, b) || NotAfter(b, a)
  {
    if a != "" && b != "" {
      NotAfterTotal(a[1..], b[1..]);
    }
  }

  lemma {:induction false} NotAfterTransitive(a: string, b: string, c: string)
    requires NotAfter(a, b) && NotAfter(b, c)
    ensures NotAfter(a, c)
  {
    if a != "" && a[0] == b[0] && b[0] == c[0] {
      NotAfterTransitive(a[1..], b[1..], c[1..]);
    }
  }

  /** Both have names; the order of exports is never asked for otherwise. */
  predicate Compare(e: Export, f: Export)
    requires e.name.Some? && f.name.Some?
  {
    !NotAfter(f.name.value, e.name.value)
  }

  predicate AllNamed(l: seq<Export>) {
    forall i :: 0 <= i < |l| ==> l[i].name.Some?
  }

  predicate InOrder(l: seq<Export>)
    requires AllNamed(l)
  {
    forall i, j :: 0 <= i < j < |l| ==> NotAfter(l[i].name.value, l[j].name.value)
  }

  method InsertExport(l: seq<Export>, e: Export) returns (more: seq<Export>)
    requires AllNamed(l) && InOrder(l) && e.name.Some?
    ensures AllNamed(more) && InOrder(more) && multiset(more) == multiset(l) + multiset{e}
  {
    hide NotAfter;
    var n := 0;
    while n < |l| && !Compare(e, l[n])
      invariant n <= |l| && forall i :: 0 <= i < n ==> NotAfter(l[i].name.value, e.name.value)
    {
      n := n + 1;
    }
    more := l[..n] + [e] + l[n..];
    Inserted(l, n, e);
  }

  lemma {:induction false} Inserted(l: seq<Export>, n: nat, e: Export)
    requires AllNamed(l) && InOrder(l) && e.name.Some? && n <= |l|
    requires forall i :: 0 <= i < n ==> NotAfter(l[i].name.value, e.name.value)
    requires n < |l| ==> Compare(e, l[n])
    ensures AllNamed(l[..n] + [e] + l[n..]) && InOrder(l[..n] + [e] + l[n..])
    ensures multiset(l[..n] + [e] + l[n..]) == multiset(l) + multiset{e}
  {
    hide NotAfter;
    assert l == l[..n] + l[n..];
    forall j | n <= j < |l|
      ensures NotAfter(e.name.value, l[j].name.value)
    {
      NotAfterTotal(e.name.value, l[n].name.value);
      if n < j {
        NotAfterTransitive(e.name.value, l[n].name.value, l[j].name.value);
      }
    }
  }

  /** The library sort, on exports that all have names. */
  method SortExports(l: seq<Export>) returns (sorted: seq<Export>)
    requires AllNamed(l)
    ensures AllNamed(sorted) && InOrder(sorted) && multiset(sorted) == multiset(l)
  {
    sorted := [];
    var k := 0;
    while k < |l|
      invariant k <= |l| && AllNamed(sorted) && InOrder(sorted) && multiset(sorted) == multiset(l[..k])
    {
      assert l[..k + 1] == l[..k] + [l[k]];
      sorted := InsertExport(sorted, l[k]);
      k := k + 1;
    }
    assert l[..k] == l;
  }

  // ----- the symbol hash

  /** No two exports have the same name. */
  predicate Distinct(exports: seq<Export>) {
    forall i, j :: 0 <= i < j < |exports| && exports[i].name.Some? ==> exports[i].name != exports[j].name
  }

  /** Symbol `y`, counted from 1, is hashed into bucket `b`. */
  predicate Hashed(exports: seq<Export>, hash: string -> nat, prime: nat, y: nat, b: nat)
    requires prime > 0
  {
    0 < y <= |exports| && exports[y - 1].name.Some? && hash(exports[y - 1].name.value) % prime == b
  }

  /** The last symbol before `y` in bucket `b`, or 0. */
  function LastBefore(exports: seq<Export>, hash: string -> nat, prime: nat, y: nat, b: nat): (z: nat)
    requires prime > 0
    ensures z == 0 || (z < y && Hashed(exports, hash, prime, z, b))
    ensures forall k :: z < k < y ==> !Hashed(exports, hash, prime, k, b)
  {
    if y <= 1 then 0
    else if Hashed(exports, hash, prime, y - 1, b) then y - 1
    else LastBefore(exports, hash, prime, y - 1, b)
  }

  function Prime(n: nat): nat {
    if n / 2 == 0 then 1 else n / 2
  }

  /** The link of symbol `y` when the first `i` symbols are entered. */
  function Link(exports: seq<Export>, hash: string -> nat, i: nat, y: nat): nat {
    if 0 < y <= i && y <= |exports| && exports[y - 1].name.Some?
    then LastBefore(exports, hash, Prime(|exports|), y, hash(exports[y - 1].name.value) % Prime(|exports|))
    else 0
  }

  function Head(table: seq<nat>, b: nat): nat {
    if 2 + b < |table| then table[2 + b] else 0
  }

  function Chain(table: seq<nat>, prime: nat, y: nat): nat {
    if 2 + prime + y < |table| then table[2 + prime + y] else 0
  }

  /** The table of the first `i` symbols: the sizes, a head for each bucket, and a link for each
      symbol to the one before it in its bucket. */
  ghost predicate TableOf(table: seq<nat>, exports: seq<Export>, hash: string -> nat, i: nat) {
    var prime := Prime(|exports|);
    |table| == 2 + prime + |exports| + 1 && table[0] == prime && table[1] == |exports| + 1 &&
    (forall b: nat :: b < prime ==> Head(table, b) == LastBefore(exports, hash, prime, i + 1, b)) &&
    (forall y: nat :: y <= |exports| ==> Chain(table, prime, y) == Link(exports, hash, i, y))
  }

  datatype Symbol = Symbol(name: Option<string>, value: nat)

  /** Symbols, ordinal words and hash table of an import library. */
  datatype Library = Library(symbols: seq<Symbol>, ordinals: seq<nat>, table: seq<nat>)

  /** Puts symbol `i + 1` at the front of its bucket. */
  method EnterSymbol(hashArray: array<nat>, prime: nat, exports: seq<Export>, hash: string -> nat, i: nat)
    requires i < |exports| && exports[i].name.Some? && prime == Prime(|exports|) && hashArray.Length == 2 + prime + |exports| + 1
    modifies hashArray
    ensures hashArray[..] == Entered(old(hashArray[..]), exports, hash, i)
  {
    var h := hash(exports[i].name.value) % prime;
    hashArray[2 + prime + i + 1] := hashArray[2 + h];
    hashArray[2 + h] := i + 1;
  }

  ghost predicate SymbolsOf(symbols: seq<Symbol>, exports: seq<Export>, i: nat)
    requires i <= |exports|
  {
    |symbols| == i + 1 && symbols[0] == Symbol(None, 0) && forall k :: 0 <= k < i ==> symbols[k + 1] == SymbolOf(exports, k)
  }

  function SymbolOf(exports: seq<Export>, k: nat): Symbol
    requires k < |exports|
  {
    if exports[k].name.Some? then Symbol(exports[k].name, 4 * k) else Symbol(None, 0)
  }

  ghost predicate OrdinalsOf(ordinals: seq<nat>, i: nat) {
    |ordinals| == i && forall k :: 0 <= k < i ==> ordinals[k] == k + 1
  }

  lemma {:induction false} NoSymbols(exports: seq<Export>)
    ensures SymbolsOf([Symbol(None, 0)], exports, 0) && OrdinalsOf([], 0)
  {
  }

  lemma {:induction false} NextSymbol(symbols: seq<Symbol>, ordinals: seq<nat>, exports: seq<Export>, i: nat)
    requires i < |exports| && SymbolsOf(symbols, exports, i) && OrdinalsOf(ordinals, i)
    ensures SymbolsOf(symbols + [if exports[i].name.Some? then Symbol(exports[i].name, 4 * i) else Symbol(None, 0)], exports, i + 1)
    ensures OrdinalsOf(ordinals + [i + 1], i + 1)
  {
  }

  lemma {:induction false} LastOrdinal(symbols: seq<Symbol>, ordinals: seq<nat>, exports: seq<Export>)
    requires SymbolsOf(symbols, exports, |exports|) && OrdinalsOf(ordinals, |exports|)
    ensures |symbols| == |exports| + 1 && symbols[0] == Symbol(None, 0)
    ensures forall i :: 0 <= i < |exports| ==>
      symbols[i + 1] == if exports[i].name.Some? then Symbol(exports[i].name, 4 * i) else Symbol(None, 0)
    ensures |ordinals| == |exports| && forall i :: 0 <= i < |exports| ==> (ordinals + [0])[i] == i + 1
  {
    forall i | 0 <= i < |exports|
      ensures symbols[i + 1] == if exports[i].name.Some? then Symbol(exports[i].name, 4 * i) else Symbol(None, 0)
    {
      assert symbols[i + 1] == SymbolOf(exports, i);
    }
    assert forall i :: 0 <= i < |exports| ==> (ordinals + [0])[i] == ordinals[i];
  }

  lemma {:induction false} EnteredNot(table: seq<nat>, exports: seq<Export>, hash: string -> nat, i: nat)
    requires i < |exports| && |table| == 2 + Prime(|exports|) + |exports| + 1 && exports[i].name.None?
    ensures Entered(table, exports, hash, i) == table
  {
  }

  method BuildHash(exports: seq<Export>, hash: string -> nat) returns (lib: Library)
    ensures |lib.symbols| == |exports| + 1 && lib.symbols[0] == Symbol(None, 0)
    ensures forall i :: 0 <= i < |exports| ==>
      lib.symbols[i + 1] == if exports[i].name.Some? then Symbol(exports[i].name, 4 * i) else Symbol(None, 0)
    ensures |lib.ordinals| == |exports| + 1 && lib.ordinals[|exports|] == 0
    ensures forall i :: 0 <= i < |exports| ==> lib.ordinals[i] == i + 1
    ensures TableOf(lib.table, exports, hash, |exports|)
  {
    var n := |exports|;
    var prime := n / 2;
    if prime == 0 {
      prime := 1;
    }
    var hashArray := new nat[2 + prime + n + 1](_ => 0);
    hashArray[0], hashArray[1] := prime, n + 1;
    var symbols: seq<Symbol>, ordinals: seq<nat> := [Symbol(None, 0)], [];
    var i := 0;
    EmptyTable(hashArray[..], exports, hash);
    hide TableOf, Entered, Hashed, LastBefore, Link, SymbolsOf, OrdinalsOf;
    assert SymbolsOf(symbols, exports, 0) && OrdinalsOf(ordinals, 0) by { NoSymbols(exports); }
    while i < n
      invariant i <= n && hashArray.Length == 2 + prime + n + 1 && TableOf(hashArray[..], exports, hash, i)
      invariant SymbolsOf(symbols, exports, i) && OrdinalsOf(ordinals, i)
      modifies hashArray
    {
      NextTable(hashArray[..], exports, hash, i);
      NextSymbol(symbols, ordinals, exports, i);
      ordinals := ordinals + [i + 1];
      if exports[i].name.None? {
        symbols := symbols + [Symbol(None, 0)];
        EnteredNot(hashArray[..], exports, hash, i);
      } else {
        symbols := symbols + [Symbol(exports[i].name, 4 * i)];
        EnterSymbol(hashArray, prime, exports, hash, i);
      }
      i := i + 1;
    }
    LastOrdinal(symbols, ordinals, exports);
    ordinals := ordinals + [0];
    lib := Library(symbols, ordinals, hashArray[..]);
  }

  lemma {:induction false} EmptyTable(table: seq<nat>, exports: seq<Export>, hash: string -> nat)
    requires |table| == 2 + Prime(|exports|) + |exports| + 1 && table[0] == Prime(|exports|) && table[1] == |exports| + 1
    requires forall k :: 2 <= k < |table| ==> table[k] == 0
    ensures TableOf(table, exports, hash, 0)
  {
  }

  lemma {:induction false} LastBeforeNext(exports: seq<Export>, hash: string -> nat, prime: nat, y: nat, b: nat)
    requires prime > 0 && y > 0
    ensures LastBefore(exports, hash, prime, y + 1, b) ==
            if Hashed(exports, hash, prime, y, b) then y else LastBefore(exports, hash, prime, y, b)
  {
  }

  /** What entering symbol `i + 1` does to the table. */
  function Entered(table: seq<nat>, exports: seq<Export>, hash: string -> nat, i: nat): seq<nat>
    requires i < |exports| && |table| == 2 + Prime(|exports|) + |exports| + 1
  {
    if exports[i].name.None? then table
    else
      var prime := Prime(|exports|);
      var h := hash(exports[i].name.value) % prime;
      table[2 + prime + i + 1 := table[2 + h]][2 + h := i + 1]
  }

  /** The table with one symbol more. */
  lemma {:induction false} NextTable(table: seq<nat>, exports: seq<Export>, hash: string -> nat, i: nat)
    requires i < |exports| && TableOf(table, exports, hash, i)
    ensures TableOf(Entered(table, exports, hash, i), exports, hash, i + 1)
  {
    var prime := Prime(|exports|);
    var table' := Entered(table, exports, hash, i);
    forall b: nat | b < prime
      ensures Head(table', b) == LastBefore(exports, hash, prime, i + 2, b)
    {
      NextHead(table, exports, hash, i, b);
    }
    forall y: nat | y <= |exports|
      ensures Chain(table', prime, y) == Link(exports, hash, i + 1, y)
    {
      NextLink(table, exports, hash, i, y);
    }
    hide LastBefore, Link, Head, Chain;
  }

  lemma {:induction false} NextHead(table: seq<nat>, exports: seq<Export>, hash: string -> nat, i: nat, b: nat)
    requires i < |exports| && TableOf(table, exports, hash, i) && b < Prime(|exports|)
    ensures Head(Entered(table, exports, hash, i), b) == LastBefore(exports, hash, Prime(|exports|), i + 2, b)
  {
    hide LastBefore, Link, Chain;
    var prime := Prime(|exports|);
    LastBeforeNext(exports, hash, prime, i + 1, b);
    assert Head(table, b) == LastBefore(exports, hash, prime, i + 1, b);
  }

  lemma {:induction false} NextLink(table: seq<nat>, exports: seq<Export>, hash: string -> nat, i: nat, y: nat)
    requires i < |exports| && TableOf(table, exports, hash, i) && y <= |exports|
    ensures Chain(Entered(table, exports, hash, i), Prime(|exports|), y) == Link(exports, hash, i + 1, y)
  {
    hide LastBefore;
    var prime := Prime(|exports|);
    assert Chain(table, prime, y) == Link(exports, hash, i, y);
    if y == i + 1 && exports[i].name.Some? {
      var h := hash(exports[i].name.value) % prime;
      assert Head(table, h) == LastBefore(exports, hash, prime, i + 1, h);
    }
  }

  ghost predicate LibraryOf(lib: Library, exports: seq<Export>, hash: string -> nat) {
    |lib.symbols| == |exports| + 1 && TableOf(lib.table, exports, hash, |exports|) &&
    forall i :: 0 <= i < |exports| ==>
      lib.symbols[i + 1] == if exports[i].name.Some? then Symbol(exports[i].name, 4 * i) else Symbol(None, 0)
  }

  /** `z` is the last symbol below `limit` whose name falls into the bucket, or 0 if there is none. */
  ghost predicate IsLast(exports: seq<Export>, hash: string -> nat, prime: nat, limit: nat, bucket: nat, z: nat)
    requires prime > 0 && limit <= |exports| + 1
  {
    (z == 0 || (z < limit && exports[z - 1].name.Some? && hash(exports[z - 1].name.value) % prime == bucket)) &&
    forall i :: z <= i < limit - 1 && exports[i].name.Some? ==> hash(exports[i].name.value) % prime != bucket
  }

  /** The hash section, word by word: the numbers of buckets and of symbols, then for each bucket its last
      symbol, then for each symbol the one before it in its bucket. */
  lemma {:induction false} TableLayout(lib: Library, exports: seq<Export>, hash: string -> nat, bucket: nat, y: nat)
    requires LibraryOf(lib, exports, hash)
    ensures |lib.table| >= 2 && lib.table[0] == (if |exports| < 2 then 1 else |exports| / 2)
    ensures lib.table[1] == |lib.symbols| == |exports| + 1 && |lib.table| == 2 + lib.table[0] + lib.table[1]
    ensures bucket < lib.table[0] ==> IsLast(exports, hash, lib.table[0], |exports| + 1, bucket, lib.table[2 + bucket])
    ensures 0 < y <= |exports| && exports[y - 1].name.Some? ==>
      IsLast(exports, hash, lib.table[0], y, hash(exports[y - 1].name.value) % lib.table[0], lib.table[2 + lib.table[0] + y])
  {
    var prime := lib.table[0];
    hide LastBefore, IsLast;
    if bucket < prime {
      assert Head(lib.table, bucket) == LastBefore(exports, hash, prime, |exports| + 1, bucket);
      LastIs(exports, hash, prime, |exports| + 1, bucket);
    }
    if 0 < y <= |exports| && exports[y - 1].name.Some? {
      assert Chain(lib.table, prime, y) == Link(exports, hash, |exports|, y);
      LastIs(exports, hash, prime, y, hash(exports[y - 1].name.value) % prime);
    }
  }

  lemma {:induction false} LastIs(exports: seq<Export>, hash: string -> nat, prime: nat, limit: nat, bucket: nat)
    requires prime > 0 && limit <= |exports| + 1
    ensures IsLast(exports, hash, prime, limit, bucket, LastBefore(exports, hash, prime, limit, bucket))
  {
    var z := LastBefore(exports, hash, prime, limit, bucket);
    forall i | z <= i < limit - 1 && exports[i].name.Some?
      ensures hash(exports[i].name.value) % prime != bucket
    {
      assert !Hashed(exports, hash, prime, i + 1, bucket);
    }
  }

  /** The lookup of a run-time linker: the last symbol of that name, or 0 if there is none. */
  method Lookup(lib: Library, hash: string -> nat, name: string, ghost exports: seq<Export>) returns (y: nat)
    requires LibraryOf(lib, exports, hash)
    ensures y <= |exports| && forall i :: y <= i < |exports| ==> exports[i].name != Some(name)
    ensures y > 0 ==> exports[y - 1].name == Some(name) && lib.symbols[y].name == Some(name)
  {
    hide LastBefore;
    var prime := lib.table[0];
    ghost var b := hash(name) % prime;
    y := lib.table[2 + hash(name) % prime];
    assert y == Head(lib.table, b);
    LastIsHashed(exports, hash, prime, |exports| + 1, b);
    NoneAfter(exports, hash, prime, |exports| + 1, name);
    while y != 0 && lib.symbols[y].name != Some(name)
      invariant y == 0 || Hashed(exports, hash, prime, y, b)
      invariant forall i :: y <= i < |exports| ==> exports[i].name != Some(name)
      decreases y
    {
      NoneAfter(exports, hash, prime, y, name);
      LastIsHashed(exports, hash, prime, y, b);
      assert Chain(lib.table, prime, y) == Link(exports, hash, |exports|, y);
      y := lib.table[2 + prime + y];
    }
  }

  lemma {:induction false} LastIsHashed(exports: seq<Export>, hash: string -> nat, prime: nat, y: nat, b: nat)
    requires prime > 0
    ensures var z := LastBefore(exports, hash, prime, y, b); z == 0 || (z < y && Hashed(exports, hash, prime, z, b))
  {
  }

  lemma {:induction false} NoneAfter(exports: seq<Export>, hash: string -> nat, prime: nat, y: nat, name: string)
    requires prime > 0
    ensures var z := LastBefore(exports, hash, prime, y, hash(name) % prime);
            forall i :: z <= i && i + 1 < y && i < |exports| ==> exports[i].name != Some(name)
  {
    var z := LastBefore(exports, hash, prime, y, hash(name) % prime);
    forall i | z <= i && i + 1 < y && i < |exports|
      ensures exports[i].name != Some(name)
    {
      assert !Hashed(exports, hash, prime, i + 1, hash(name) % prime);
    }
  }

  /** With distinct names the lookup finds each name at the symbol whose ordinal word is its place
      in the list, counted from 1. */
  lemma {:induction false} FoundAtOrdinal(lib: Library, hash: string -> nat, exports: seq<Export>, i: nat, y: nat)
    requires LibraryOf(lib, exports, hash) && Distinct(exports) && i < |exports| && exports[i].name.Some?
    requires |lib.ordinals| == |exports| + 1 && forall k :: 0 <= k < |exports| ==> lib.ordinals[k] == k + 1
    requires y <= |exports| && (forall k :: y <= k < |exports| ==> exports[k].name != exports[i].name)
    requires y > 0 ==> exports[y - 1].name == exports[i].name
    ensures y == i + 1 && lib.ordinals[lib.symbols[y].value / 4] == i + 1
  {
    assert y > i;
    assert y - 1 == i;
  }

  // ----- the list

  class ExportList {
    var exports: seq<Export>
    var presetOrdinals: nat

    /** Behind the frozen ordinals every export has a name. */
    ghost predicate Valid()
      reads this
    {
      presetOrdinals <= |exports| && AllNamed(exports[presetOrdinals..])
    }

    constructor ()
      ensures Valid() && exports == [] && presetOrdinals == 0
    {
      exports, presetOrdinals := [], 0;
    }

    /** Freezes a name at an ordinal. */
    method AddExportOrdinal(name: Option<string>, ordinal: nat, code: bool, size: int)
      requires Valid() && ordinal >= 1
      modifies this
      ensures Valid() && ordinal <= |exports| && |exports| == (if old(|exports|) < ordinal then ordinal else old(|exports|))
      ensures presetOrdinals == if old(presetOrdinals) < ordinal then ordinal else old(presetOrdinals)
      ensures exports[ordinal - 1].name == name && exports[ordinal - 1].code == code && exports[ordinal - 1].size == size
      ensures exports[ordinal - 1].address == if ordinal <= old(|exports|) then old(exports)[ordinal - 1].address else 0
      ensures forall i :: 0 <= i < |exports| && i != ordinal - 1 ==>
        exports[i] == if i < old(|exports|) then old(exports)[i] else NO_EXPORT
    {
      while |exports| < ordinal
        invariant old(|exports|) <= |exports| && (|exports| <= ordinal || |exports| == old(|exports|))
        invariant forall i :: 0 <= i < |exports| ==> exports[i] == if i < old(|exports|) then old(exports)[i] else NO_EXPORT
        invariant presetOrdinals == old(presetOrdinals)
      {
        exports := exports + [NO_EXPORT];
      }
      if presetOrdinals < ordinal {
        presetOrdinals := ordinal;
      }
      exports := exports[ordinal - 1 := exports[ordinal - 1].(name := name, code := code, size := size)];
      forall i | presetOrdinals <= i < |exports|
        ensures exports[i].name.Some?
      {
        assert exports[i] == old(exports)[old(presetOrdinals)..][i - old(presetOrdinals)];
      }
    }

    /** Gives a known name its address, or appends a new name; names stay distinct. */
    method AddExport(name: string, addr: nat, code: bool, size: int)
      requires Valid()
      modifies this`exports
      ensures Valid() && (old(Distinct(exports)) ==> Distinct(exports))
      ensures exports == AfterAdding(old(exports), name, addr, code, size)
    {
      StillNamed(exports, presetOrdinals, name, addr, code, size);
      if Distinct(exports) {
        AddedDistinct(exports, name, addr, code, size);
      }
      hide Distinct, AllNamed, AfterAdding;
      var i := 0;
      while i < |exports|
        invariant i <= |exports| && forall k :: 0 <= k < i ==> exports[k].name != Some(name)
      {
        if exports[i].name == Some(name) {
          AfterAddingAt(exports, name, addr, code, size, i);
          var e := exports[i].(address := addr);
          if e.size == 0 {
            e := e.(code := code, size := size);
          }
          exports := exports[i := e];
          return;
        }
        i := i + 1;
      }
      AfterAddingAt(exports, name, addr, code, size, i);
      exports := exports + [Export(Some(name), addr, code, size)];
    }

    /** Sorts the new names; no frozen ordinal moves. */
    method DoSort()
      requires Valid()
      modifies this`exports
      ensures Valid() && |exports| == old(|exports|) && exports[..presetOrdinals] == old(exports)[..presetOrdinals]
      ensures InOrder(exports[presetOrdinals..])
      ensures multiset(exports[presetOrdinals..]) == multiset(old(exports)[presetOrdinals..])
      ensures old(Distinct(exports)) ==> Distinct(exports)
    {
      var sorted := SortExports(exports[presetOrdinals..]);
      StillDistinct(exports, presetOrdinals, sorted);
      exports := exports[..presetOrdinals] + sorted;
      assert exports[presetOrdinals..] == sorted;
    }

    /** Writes the import library. */
    method WriteDso(hash: string -> nat) returns (lib: Library)
      requires Valid()
      ensures LibraryOf(lib, exports, hash)
      ensures |lib.ordinals| == |exports| + 1 && lib.ordinals[|exports|] == 0
      ensures forall i :: 0 <= i < |exports| ==> lib.ordinals[i] == i + 1
    {
      lib := BuildHash(exports, hash);
    }
  }

  function FirstNamed(exports: seq<Export>, name: string): (i: nat)
    ensures i <= |exports| && (i < |exports| ==> exports[i].name == Some(name))
    ensures forall k :: 0 <= k < i ==> exports[k].name != Some(name)
  {
    if exports == [] || exports[0].name == Some(name) then 0
    else
      var i := FirstNamed(exports[1..], name);
      assert forall k :: 1 <= k < |exports| ==> exports[k] == exports[1..][k - 1];
      i + 1
  }

  lemma {:induction false} FirstNamedIs(exports: seq<Export>, name: string, i: nat)
    requires i <= |exports| && (i < |exports| ==> exports[i].name == Some(name))
    requires forall k :: 0 <= k < i ==> exports[k].name != Some(name)
    ensures FirstNamed(exports, name) == i
  {
    var j := FirstNamed(exports, name);
    assert j < |exports| ==> exports[j].name == Some(name);
  }

  /** The list after a name was added; code and size of a frozen export are kept if it has a size. */
  function AfterAdding(exports: seq<Export>, name: string, addr: nat, code: bool, size: int): seq<Export> {
    var i := FirstNamed(exports, name);
    if i == |exports| then exports + [Export(Some(name), addr, code, size)]
    else if exports[i].size == 0 then exports[i := Export(Some(name), addr, code, size)]
    else exports[i := exports[i].(address := addr)]
  }

  lemma {:induction false} AfterAddingAt(exports: seq<Export>, name: string, addr: nat, code: bool, size: int, i: nat)
    requires i <= |exports| && (i < |exports| ==> exports[i].name == Some(name))
    requires forall k :: 0 <= k < i ==> exports[k].name != Some(name)
    ensures AfterAdding(exports, name, addr, code, size) ==
            if i == |exports| then exports + [Export(Some(name), addr, code, size)]
            else if exports[i].size == 0 then exports[i := exports[i].(address := addr).(code := code, size := size)]
            else exports[i := exports[i].(address := addr)]
  {
    FirstNamedIs(exports, name, i);
    hide FirstNamed;
  }

  lemma {:induction false} AddedDistinct(exports: seq<Export>, name: string, addr: nat, code: bool, size: int)
    requires Distinct(exports)
    ensures Distinct(AfterAdding(exports, name, addr, code, size))
  {
  }

  lemma {:induction false} StillNamed(exports: seq<Export>, n: nat, name: string, addr: nat, code: bool, size: int)
    requires n <= |exports| && AllNamed(exports[n..])
    ensures n <= |AfterAdding(exports, name, addr, code, size)| && AllNamed(AfterAdding(exports, name, addr, code, size)[n..])
  {
    assert forall k :: n <= k < |exports| ==> exports[k] == exports[n..][k - n];
  }

  lemma {:induction false} TwiceIn(s: seq<Export>, a: nat, b: nat)
    requires a < b < |s| && s[a] == s[b]
    ensures multiset(s)[s[a]] >= 2
  {
    assert s == s[..b] + s[b..];
    assert s[a] in multiset(s[..b]) by { assert s[..b][a] == s[a]; }
    assert s[a] in multiset(s[b..]) by { assert s[b..][0] == s[a]; }
  }

  lemma {:induction false} TwiceAt(s: seq<Export>, e: Export) returns (a: nat, b: nat)
    requires multiset(s)[e] >= 2
    ensures a < b < |s| && s[a] == s[b] == e
  {
    a :| a < |s| && s[a] == e;
    assert s == s[..a] + ([s[a]] + s[a + 1..]);
    assert multiset(s) == multiset(s[..a]) + multiset([s[a]] + s[a + 1..]);
    if e in multiset(s[a + 1..]) {
      var k :| 0 <= k < |s[a + 1..]| && s[a + 1..][k] == e;
      b := a + 1 + k;
    } else {
      assert e in multiset(s[..a]);
      var k :| 0 <= k < |s[..a]| && s[..a][k] == e;
      a, b := k, a;
    }
  }

  lemma {:induction false} SortedDistinct(s: seq<Export>, t: seq<Export>, a: nat, b: nat)
    requires Distinct(s) && multiset(s) == multiset(t) && a < b < |t| && t[a].name.Some?
    ensures t[a].name != t[b].name
  {
    if t[a] == t[b] {
      TwiceIn(t, a, b);
      var c, d := TwiceAt(s, t[a]);
    } else {
      assert t[a] in multiset(s) && t[b] in multiset(s);
      var c :| 0 <= c < |s| && s[c] == t[a];
      var d :| 0 <= d < |s| && s[d] == t[b];
    }
  }

  lemma {:induction false} StillDistinct(exports: seq<Export>, n: nat, sorted: seq<Export>)
    requires n <= |exports| && multiset(sorted) == multiset(exports[n..])
    ensures |exports[..n] + sorted| == |exports|
    ensures Distinct(exports) ==> Distinct(exports[..n] + sorted)
  {
    assert |multiset(sorted)| == |sorted| && |multiset(exports[n..])| == |exports[n..]|;
    if Distinct(exports) {
      var all := exports[..n] + sorted;
      forall i, j | 0 <= i < j < |all| && all[i].name.Some?
        ensures all[i].name != all[j].name
      {
        if i >= n {
          SortedDistinct(exports[n..], sorted, i - n, j - n);
        } else if j >= n {
          assert sorted[j - n] in multiset(exports[n..]);
          var k :| 0 <= k < |exports[n..]| && exports[n..][k] == sorted[j - n];
          assert exports[n + k] == all[j];
        }
      }
    }
  }

  // ----- an export list from beginning to end

  /** A line of the file of frozen exports, and a symbol of the image. */
  datatype Frozen = Frozen(name: string, ordinal: nat, code: bool, size: int)
  datatype Symbolic = Symbolic(name: string, address: nat, code: bool, size: int)

  /** Ordinals count from 1, and no name or ordinal is frozen twice. */
  predicate FrozenOnce(frozen: seq<Frozen>) {
    (forall i :: 0 <= i < |frozen| ==> frozen[i].ordinal >= 1) &&
    forall i, j :: 0 <= i < j < |frozen| ==> frozen[i].name != frozen[j].name && frozen[i].ordinal != frozen[j].ordinal
  }

  /** Every frozen name is at its ordinal. */
  predicate AllAtOrdinals(exports: seq<Export>, frozen: seq<Frozen>) {
    forall i :: 0 <= i < |frozen| ==> 1 <= frozen[i].ordinal <= |exports| && exports[frozen[i].ordinal - 1].name == Some(frozen[i].name)
  }

  /** Each name in the list is that of a frozen export, at its ordinal. */
  ghost predicate OnlyFrozen(exports: seq<Export>, frozen: seq<Frozen>) {
    forall k :: 0 <= k < |exports| && exports[k].name.Some? ==> IsFrozenAt(exports[k].name.value, k, frozen)
  }

  ghost predicate IsFrozenAt(name: string, k: nat, frozen: seq<Frozen>) {
    exists i :: 0 <= i < |frozen| && frozen[i].name == name && frozen[i].ordinal == k + 1
  }

  predicate Has(exports: seq<Export>, name: string) {
    exists k :: 0 <= k < |exports| && exports[k].name == Some(name)
  }

  /** So freezing keeps names distinct. */
  lemma {:induction false} FrozenDistinct(exports: seq<Export>, frozen: seq<Frozen>)
    requires FrozenOnce(frozen) && OnlyFrozen(exports, frozen)
    ensures Distinct(exports)
  {
    hide FrozenOnce, IsFrozenAt;
    forall a, b | 0 <= a < b < |exports| && exports[a].name.Some?
      ensures exports[a].name != exports[b].name
    {
      if exports[a].name == exports[b].name {
        FrozenAtOne(exports[a].name.value, a, b, frozen);
      }
    }
  }

  lemma {:induction false} FrozenAtOne(name: string, a: nat, b: nat, frozen: seq<Frozen>)
    requires FrozenOnce(frozen) && IsFrozenAt(name, a, frozen) && IsFrozenAt(name, b, frozen)
    ensures a == b
  {
    var i :| 0 <= i < |frozen| && frozen[i].name == name && frozen[i].ordinal == a + 1;
    var j :| 0 <= j < |frozen| && frozen[j].name == name && frozen[j].ordinal == b + 1;
  }

  /** What freezing one name does to the names of a list. */
  predicate FreezesOne(before: seq<Export>, exports: seq<Export>, f: Frozen) {
    |before| <= |exports| && 1 <= f.ordinal <= |exports| &&
    forall k :: 0 <= k < |exports| ==>
      exports[k].name == if k == f.ordinal - 1 then Some(f.name) else if k < |before| then before[k].name else None
  }

  /** One name more is frozen. */
  lemma {:induction false} OneMoreFrozen(before: seq<Export>, exports: seq<Export>, frozen: seq<Frozen>, n: nat)
    requires FrozenOnce(frozen) && n < |frozen| && AllAtOrdinals(before, frozen[..n]) && OnlyFrozen(before, frozen[..n])
    requires FreezesOne(before, exports, frozen[n])
    ensures AllAtOrdinals(exports, frozen[..n + 1]) && OnlyFrozen(exports, frozen[..n + 1])
  {
    hide IsFrozenAt, FrozenOnce, FreezesOne;
    forall k: nat | k < |exports| && exports[k].name.Some?
      ensures IsFrozenAt(exports[k].name.value, k, frozen[..n + 1])
    {
      FrozenNext(before, exports, frozen, n, k);
    }
    forall i: nat | i < n + 1
      ensures 1 <= frozen[i].ordinal <= |exports| && exports[frozen[i].ordinal - 1].name == Some(frozen[i].name)
    {
      AtOrdinalNext(before, exports, frozen, n, i);
    }
    assert forall i :: 0 <= i < n + 1 ==> frozen[..n + 1][i] == frozen[i];
  }

  lemma {:induction false} FrozenNext(before: seq<Export>, exports: seq<Export>, frozen: seq<Frozen>, n: nat, k: nat)
    requires n < |frozen| && OnlyFrozen(before, frozen[..n]) && FreezesOne(before, exports, frozen[n])
    requires k < |exports| && exports[k].name.Some?
    ensures IsFrozenAt(exports[k].name.value, k, frozen[..n + 1])
  {
    if k == frozen[n].ordinal - 1 {
      assert frozen[..n + 1][n] == frozen[n];
    } else {
      assert IsFrozenAt(before[k].name.value, k, frozen[..n]);
      var i :| 0 <= i < n && frozen[..n][i].name == before[k].name.value && frozen[..n][i].ordinal == k + 1;
      assert frozen[..n + 1][i] == frozen[..n][i];
    }
  }

  lemma {:induction false} AtOrdinalNext(before: seq<Export>, exports: seq<Export>, frozen: seq<Frozen>, n: nat, i: nat)
    requires FrozenOnce(frozen) && i <= n < |frozen| && AllAtOrdinals(before, frozen[..n]) && FreezesOne(before, exports, frozen[n])
    ensures 1 <= frozen[i].ordinal <= |exports| && exports[frozen[i].ordinal - 1].name == Some(frozen[i].name)
  {
    if i < n {
      assert frozen[..n][i] == frozen[i];
    }
  }

  /** Freezes the old exports. */
  method Freeze(frozen: seq<Frozen>) returns (list: ExportList)
    requires FrozenOnce(frozen)
    ensures fresh(list) && list.Valid() && list.presetOrdinals == |list.exports|
    ensures AllAtOrdinals(list.exports, frozen) && OnlyFrozen(list.exports, frozen) && Distinct(list.exports)
  {
    list := new ExportList();
    hide Distinct, AllNamed, OnlyFrozen, AllAtOrdinals;
    assert AllAtOrdinals(list.exports, frozen[..0]) && OnlyFrozen(list.exports, frozen[..0]) by { NoneFrozen(frozen[..0]); }
    for n := 0 to |frozen|
      invariant fresh(list) && list.Valid() && list.presetOrdinals == |list.exports|
      invariant AllAtOrdinals(list.exports, frozen[..n]) && OnlyFrozen(list.exports, frozen[..n])
    {
      ghost var before := list.exports;
      list.AddExportOrdinal(Some(frozen[n].name), frozen[n].ordinal, frozen[n].code, frozen[n].size);
      OneMoreFrozen(before, list.exports, frozen, n);
    }
    assert frozen[..|frozen|] == frozen;
    FrozenDistinct(list.exports, frozen);
  }

  lemma {:induction false} NoneFrozen(none: seq<Frozen>)
    requires none == []
    ensures AllAtOrdinals([], none) && OnlyFrozen([], none)
  {
  }

  /** A name more in the list moves no other. */
  lemma {:induction false} NamesAfterAdding(exports: seq<Export>, name: string, addr: nat, code: bool, size: int)
    ensures var after := AfterAdding(exports, name, addr, code, size);
            |exports| <= |after| && (forall k :: 0 <= k < |exports| ==> after[k].name == exports[k].name) &&
            forall n :: Has(after, n) <==> Has(exports, n) || n == name
  {
    var after := AfterAdding(exports, name, addr, code, size);
    var i := FirstNamed(exports, name);
    assert after[i].name == Some(name);
    hide AfterAdding, FirstNamed;
    forall n
      ensures Has(after, n) <==> Has(exports, n) || n == name
    {
      if Has(exports, n) {
        var k :| 0 <= k < |exports| && exports[k].name == Some(n);
        assert after[k].name == Some(n);
      }
      if Has(after, n) && n != name {
        var k :| 0 <= k < |after| && after[k].name == Some(n);
        assert k < |exports| && exports[k].name == Some(n);
      }
    }
  }

  /** Sorting neither. */
  lemma {:induction false} NamesAfterSorting(before: seq<Export>, exports: seq<Export>, n: nat, name: string)
    requires n <= |exports| == |before| && exports[..n] == before[..n] && multiset(exports[n..]) == multiset(before[n..])
    ensures Has(exports, name) <==> Has(before, name)
  {
    if Has(before, name) {
      SortedHas(before, exports, n, name);
    }
    if Has(exports, name) {
      SortedHas(exports, before, n, name);
    }
  }

  lemma {:induction false} SortedHas(before: seq<Export>, exports: seq<Export>, n: nat, name: string)
    requires n <= |exports| == |before| && exports[..n] == before[..n] && multiset(exports[n..]) == multiset(before[n..])
    requires Has(before, name)
    ensures Has(exports, name)
  {
    var k :| 0 <= k < |before| && before[k].name == Some(name);
    if k < n {
      assert exports[k] == exports[..n][k] == before[..n][k];
    } else {
      assert before[n..][k - n] in multiset(exports[n..]);
      var j :| 0 <= j < |exports[n..]| && exports[n..][j] == before[k];
      assert exports[n + j] == before[k];
    }
  }

  predicate Listed(frozen: seq<Frozen>, added: seq<Symbolic>, name: string) {
    (exists i :: 0 <= i < |frozen| && frozen[i].name == name) || (exists i :: 0 <= i < |added| && added[i].name == name)
  }

  /** The whole list: frozen names at their ordinals, and every name once. */
  ghost predicate ListOf(exports: seq<Export>, frozen: seq<Frozen>, added: seq<Symbolic>) {
    Distinct(exports) && AllAtOrdinals(exports, frozen) && forall name :: Has(exports, name) <==> Listed(frozen, added, name)
  }

  lemma {:induction false} ListOfFrozen(exports: seq<Export>, frozen: seq<Frozen>, none: seq<Symbolic>)
    requires Distinct(exports) && AllAtOrdinals(exports, frozen) && OnlyFrozen(exports, frozen) && none == []
    ensures ListOf(exports, frozen, none)
  {
    hide Distinct;
    forall name
      ensures Has(exports, name) <==> Listed(frozen, none, name)
    {
      if Has(exports, name) {
        var k :| 0 <= k < |exports| && exports[k].name == Some(name);
        assert IsFrozenAt(name, k, frozen);
      }
      if Listed(frozen, none, name) {
        var i :| 0 <= i < |frozen| && frozen[i].name == name;
        assert exports[frozen[i].ordinal - 1].name == Some(name);
      }
    }
  }

  lemma {:induction false} ListOfMore(exports: seq<Export>, after: seq<Export>, frozen: seq<Frozen>, added: seq<Symbolic>, n: nat)
    requires n < |added| && ListOf(exports, frozen, added[..n]) && Distinct(after)
    requires after == AfterAdding(exports, added[n].name, added[n].address, added[n].code, added[n].size)
    ensures ListOf(after, frozen, added[..n + 1])
  {
    NamesAfterAdding(exports, added[n].name, added[n].address, added[n].code, added[n].size);
    hide Distinct, AfterAdding, Has;
    forall name
      ensures Has(after, name) <==> Listed(frozen, added[..n + 1], name)
    {
      ListedMore(frozen, added, n, name);
    }
  }

  lemma {:induction false} ListedMore(frozen: seq<Frozen>, added: seq<Symbolic>, n: nat, name: string)
    requires n < |added|
    ensures Listed(frozen, added[..n + 1], name) <==> Listed(frozen, added[..n], name) || name == added[n].name
  {
    assert added[..n + 1] == added[..n] + [added[n]];
    assert (added[..n] + [added[n]])[n] == added[n];
    assert forall i :: 0 <= i < n ==> added[..n + 1][i] == added[..n][i];
  }

  lemma {:induction false} ListOfSorted(before: seq<Export>, exports: seq<Export>, frozen: seq<Frozen>, added: seq<Symbolic>, n: nat)
    requires n <= |exports| == |before| && exports[..n] == before[..n] && multiset(exports[n..]) == multiset(before[n..])
    requires ListOf(before, frozen, added) && Distinct(exports)
    requires forall i :: 0 <= i < |frozen| ==> frozen[i].ordinal <= n
    ensures ListOf(exports, frozen, added)
  {
    hide Distinct, Has, Listed;
    forall name
      ensures Has(exports, name) <==> Has(before, name)
    {
      NamesAfterSorting(before, exports, n, name);
    }
    forall i | 0 <= i < |frozen|
      ensures exports[frozen[i].ordinal - 1].name == Some(frozen[i].name)
    {
      var k := frozen[i].ordinal - 1;
      assert exports[k] == exports[..n][k] == before[..n][k];
    }
  }

  /** Frozen ordinals first and the symbols of the image after them, sorted, written to a library. */
  method ExportAll(frozen: seq<Frozen>, added: seq<Symbolic>, hash: string -> nat) returns (lib: Library, ghost exports: seq<Export>)
    requires FrozenOnce(frozen)
    ensures ListOf(exports, frozen, added) && LibraryOf(lib, exports, hash)
    ensures |lib.ordinals| == |exports| + 1 && forall i :: 0 <= i < |exports| ==> lib.ordinals[i] == i + 1
  {
    var list := Freeze(frozen);
    ghost var preset := list.presetOrdinals;
    assert forall i :: 0 <= i < |frozen| ==> frozen[i].ordinal <= preset;
    assert ListOf(list.exports, frozen, added[..0]) by { ListOfFrozen(list.exports, frozen, added[..0]); }
    hide Distinct, AllNamed, ListOf, AllAtOrdinals, OnlyFrozen, AfterAdding, LibraryOf, InOrder;
    for n := 0 to |added|
      invariant fresh(list) && list.Valid() && list.presetOrdinals == preset
      invariant ListOf(list.exports, frozen, added[..n]) && Distinct(list.exports)
    {
      ghost var before := list.exports;
      list.AddExport(added[n].name, added[n].address, added[n].code, added[n].size);
      ListOfMore(before, list.exports, frozen, added, n);
    }
    assert added[..|added|] == added;
    ghost var before := list.exports;
    list.DoSort();
    ListOfSorted(before, list.exports, frozen, added, preset);
    lib := list.WriteDso(hash);
    exports := list.exports;
  }

  /** The ordinal a run-time linker finds for a name: for a frozen name the frozen one, and for each
      other name in the list one of its own. */
  method Resolve(lib: Library, hash: string -> nat, name: string, ghost exports: seq<Export>, ghost frozen: seq<Frozen>, ghost added: seq<Symbolic>)
    returns (ordinal: Option<nat>)
    requires ListOf(exports, frozen, added) && LibraryOf(lib, exports, hash)
    requires |lib.ordinals| == |exports| + 1 && forall i :: 0 <= i < |exports| ==> lib.ordinals[i] == i + 1
    ensures ordinal.Some? <==> Listed(frozen, added, name)
    ensures ordinal.Some? ==> 1 <= ordinal.value <= |exports| && exports[ordinal.value - 1].name == Some(name)
    ensures forall i :: 0 <= i < |frozen| && frozen[i].name == name ==> ordinal == Some(frozen[i].ordinal)
  {
    var y := Lookup(lib, hash, name, exports);
    assert Has(exports, name) <==> Listed(frozen, added, name);
    hide LibraryOf;
    if y == 0 {
      assert forall i :: 0 <= i < |frozen| && frozen[i].name == name ==> Listed(frozen, added, name);
      return None;
    }
    assert exports[y - 1].name == Some(name);
    FoundAtOrdinal(lib, hash, exports, y - 1, y);
    SymbolAt(lib, exports, hash, y);
    ordinal := Some(lib.ordinals[lib.symbols[y].value / 4]);
  }

  lemma {:induction false} SymbolAt(lib: Library, exports: seq<Export>, hash: string -> nat, y: nat)
    requires LibraryOf(lib, exports, hash) && 0 < y <= |exports| && exports[y - 1].name.Some?
    ensures |lib.symbols| == |exports| + 1 && lib.symbols[y].value / 4 == y - 1
  {
  }
}
