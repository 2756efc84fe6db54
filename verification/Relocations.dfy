/** The relocation section of an E32 image: relocations by page, written and read back. */
module Relocations {
  import opened Wrappers

  type byte = b: nat | b < 256

  const WORD32: nat := 0x1_0000_0000
  const PAGE: nat := 0x1000
  const TEXT_TYPE: nat := 0x1000
  const DATA_TYPE: nat := 0x2000

  /** A 32-bit value. */
  function U32(x: nat): nat {
    x % WORD32
  }

  // ----- little-endian words

  function LowByte(x: nat): byte {
    x % 256
  }

  function Shift8(x: nat): nat {
    x / 256
  }

  function Le16(x: nat): (b: seq<byte>)
    ensures |b| == 2
  {
    [LowByte(x), LowByte(Shift8(x))]
  }

  function Le32(x: nat): (b: seq<byte>)
    ensures |b| == 4
  {
    [LowByte(x), LowByte(Shift8(x)), LowByte(Shift8(Shift8(x))), LowByte(Shift8(Shift8(Shift8(x))))]
  }

  function Value(b: byte): nat {
    b
  }

  function Read16(b: seq<byte>): nat
    requires |b| >= 2
  {
    Value(b[0]) + 256 * Value(b[1])
  }

  function Read32(b: seq<byte>): nat
    requires |b| >= 4
  {
    Value(b[0]) + 256 * Value(b[1]) + 65536 * Value(b[2]) + 16777216 * Value(b[3])
  }

  lemma {:induction false} Read16Le16(x: nat)
    requires x < 65536
    ensures Read16(Le16(x)) == x
  {
  }

  lemma {:induction false} Read32Le32(x: nat)
    requires x < WORD32
    ensures Read32(Le32(x)) == x
  {
    var x1 := Shift8(x);
    var x2 := Shift8(x1);
    var x3 := Shift8(x2);
    assert x == 256 * x1 + LowByte(x) && x1 == 256 * x2 + LowByte(x1) && x2 == 256 * x3 + LowByte(x2);
    assert x3 < 256;
  }

  // ----- relocations

  /** An offset to be relocated and the value found there; in a page the offset is relative to it. */
  datatype Relocation = Relocation(offset: nat, value: nat)

  datatype Page = Page(prefix: nat, relocs: seq<Relocation>)

  datatype Header = Header(codeBase: nat, codeSize: nat, dataBase: nat, dataSize: nat, bssSize: nat)

  /** The relocation type of a value: 1 for code, 2 for data, 0 for neither.  Both ends of a range
      belong to it; the ends are computed in 32 bits. */
  function TypeOf(h: Header, value: nat): nat {
    if h.codeBase <= value <= (h.codeBase + h.codeSize) % WORD32 then 1
    else if h.dataBase <= value <= (h.dataBase + h.dataSize + h.bssSize) % WORD32 then 2
    else 0
  }

  /** The relocations of a page with their full offsets. */
  function InPage(prefix: nat, relocs: seq<Relocation>): (l: seq<Relocation>)
    ensures |l| == |relocs|
    ensures forall i :: 0 <= i < |l| ==> l[i] == Relocation(prefix + relocs[i].offset, relocs[i].value)
  {
    seq(|relocs|, i requires 0 <= i < |relocs| => Relocation(prefix + relocs[i].offset, relocs[i].value))
  }

  function Listing(pages: seq<Page>): seq<Relocation> {
    if pages == [] then [] else InPage(pages[0].prefix, pages[0].relocs) + Listing(pages[1..])
  }

  predicate PageOk(p: Page) {
    p.prefix % PAGE == 0 && p.prefix < WORD32 && forall i :: 0 <= i < |p.relocs| ==> p.relocs[i].offset < PAGE
  }

  /** Pages in ascending order, each at a page boundary. */
  predicate PagesOk(pages: seq<Page>) {
    (forall i :: 0 <= i < |pages| ==> PageOk(pages[i])) &&
    (forall i, j :: 0 <= i < j < |pages| ==> pages[i].prefix < pages[j].prefix)
  }

  predicate Ascending(l: seq<Relocation>) {
    forall i, j :: 0 <= i < j < |l| ==> l[i].offset <= l[j].offset
  }

  // ----- the written form

  function SublistPadding(n: nat): (padding: nat)
    ensures padding == if n % 2 == 0 then 0 else 2
  {
    SizeMod4(n);
    if (8 + 2 * n) % 4 != 0 then 4 - (8 + 2 * n) % 4 else 0
  }

  lemma {:induction false} SizeMod4(n: nat)
    ensures (8 + 2 * n) % 4 == 2 * (n % 2)
  {
    var m := n / 2;
    assert 8 + 2 * n == 4 * (2 + m) + 2 * (n % 2);
  }

  /** The size of a block of `n` relocations: rounded up to the next multiple of four. */
  function SublistSize(n: nat): (size: nat)
    ensures size % 4 == 0 && 8 + 2 * n <= size < 8 + 2 * n + 4
  {
    SizeMod4(n);
    EvenEnd(n);
    8 + 2 * n + SublistPadding(n)
  }

  lemma {:induction false} EvenEnd(n: nat)
    ensures (8 + 2 * n + if n % 2 == 0 then 0 else 2) % 4 == 0
  {
    var m := n / 2;
    assert 8 + 2 * n + (if n % 2 == 0 then 0 else 2) == 4 * (2 + m + n % 2);
  }

  function Entry(h: Header, r: Relocation): nat {
    r.offset + (if TypeOf(h, r.value) == 1 then TEXT_TYPE else if TypeOf(h, r.value) == 2 then DATA_TYPE else 0)
  }

  function Entries(h: Header, relocs: seq<Relocation>): seq<byte> {
    if relocs == [] then [] else Le16(Entry(h, relocs[0])) + Entries(h, relocs[1..])
  }

  function Zeros(n: nat): (z: seq<byte>)
    ensures |z| == n && forall i :: 0 <= i < n ==> z[i] == 0
  {
    seq(n, _ => 0)
  }

  function PageBytes(h: Header, p: Page): seq<byte> {
    Le32(p.prefix) + Le32(U32(SublistSize(|p.relocs|))) + Entries(h, p.relocs) + Zeros(SublistPadding(|p.relocs|))
  }

  function Bytes(h: Header, pages: seq<Page>): seq<byte> {
    if pages == [] then [] else PageBytes(h, pages[0]) + Bytes(h, pages[1..])
  }

  function TotalSize(pages: seq<Page>): nat {
    if pages == [] then 0 else SublistSize(|pages[0].relocs|) + TotalSize(pages[1..])
  }

  function Count(pages: seq<Page>): nat {
    if pages == [] then 0 else |pages[0].relocs| + Count(pages[1..])
  }

  // ----- reading it back

  /** An entry of the section: where it is, and its type. */
  datatype Entry16 = At(offset: nat, kind: nat)

  /** The entries of one block; a word without a type is padding. */
  function ReadEntries(prefix: nat, b: seq<byte>): seq<Entry16> {
    if |b| < 2 then []
    else
      var w := Read16(b);
      (if w / PAGE == 0 then [] else [At(prefix + w % PAGE, w / PAGE)]) + ReadEntries(prefix, b[2..])
  }

  /** Block after block; None where the bytes are not a relocation section. */
  function ReadBlocks(b: seq<byte>): Option<seq<Entry16>>
    decreases |b|
  {
    if b == [] then Some([])
    else if |b| < 8 then None
    else
      var size := Read32(b[4..]);
      if size < 8 || size > |b| || size % 4 != 0 then None
      else
        match ReadBlocks(b[size..])
        case None => None
        case Some(rest) => Some(ReadEntries(Read32(b), b[8..size]) + rest)
  }

  /** What the relocations come to: those whose value is in the code or in the data. */
  function Typed(h: Header, l: seq<Relocation>): seq<Entry16> {
    if l == [] then []
    else (if TypeOf(h, l[0].value) == 0 then [] else [At(l[0].offset, TypeOf(h, l[0].value))]) + Typed(h, l[1..])
  }

  lemma {:induction false} TypedAppend(h: Header, l: seq<Relocation>, m: seq<Relocation>)
    ensures Typed(h, l + m) == Typed(h, l) + Typed(h, m)
  {
    hide TypeOf;
    if l == [] {
      assert l + m == m;
    } else {
      assert (l + m)[1..] == l[1..] + m;
      TypedAppend(h, l[1..], m);
    }
  }

  /** What relocations come to does not depend on their order. */
  lemma {:induction false} TypedMultiset(h: Header, a: seq<Relocation>, b: seq<Relocation>)
    requires multiset(a) == multiset(b)
    ensures multiset(Typed(h, a)) == multiset(Typed(h, b))
  {
    hide Typed;
    if a == [] {
      NothingIn(b);
    } else {
      var k := TakenFrom(a, b);
      TypedMultiset(h, a[1..], b[..k] + b[k + 1..]);
      TypedAround(h, [], a[0], a[1..]);
      TypedAround(h, b[..k], b[k], b[k + 1..]);
      assert [] + [a[0]] + a[1..] == a && [] + a[1..] == a[1..] && b[..k] + [b[k]] + b[k + 1..] == b;
    }
  }

  lemma {:induction false} NothingIn(b: seq<Relocation>)
    requires multiset([]) == multiset(b)
    ensures b == []
  {
    assert |multiset(b)| == |b|;
  }

  /** The first of some relocations, in a list of the same ones. */
  lemma {:induction false} TakenFrom(a: seq<Relocation>, b: seq<Relocation>) returns (k: nat)
    requires a != [] && multiset(a) == multiset(b)
    ensures k < |b| && b[k] == a[0] && multiset(a[1..]) == multiset(b[..k] + b[k + 1..])
  {
    assert a[0] in multiset(b);
    k :| 0 <= k < |b| && b[k] == a[0];
    assert a == [a[0]] + a[1..] && b == b[..k] + [b[k]] + b[k + 1..];
    assert multiset(a) == multiset([a[0]]) + multiset(a[1..]);
    assert multiset(b) == multiset(b[..k]) + multiset([b[k]]) + multiset(b[k + 1..]);
    assert multiset(a[1..]) == multiset(a) - multiset([a[0]]);
    assert multiset(b[..k] + b[k + 1..]) == multiset(b) - multiset([b[k]]);
  }

  lemma {:induction false} TypedAround(h: Header, l: seq<Relocation>, r: Relocation, m: seq<Relocation>)
    ensures multiset(Typed(h, l + [r] + m)) == multiset(Typed(h, [r])) + multiset(Typed(h, l + m))
  {
    TypedAppend(h, l + [r], m);
    TypedAppend(h, l, [r]);
    TypedAppend(h, l, m);
    hide Typed;
  }

  predicate AscendingEntries(es: seq<Entry16>) {
    forall i, j :: 0 <= i < j < |es| ==> es[i].offset <= es[j].offset
  }

  lemma {:induction false} TypedAscending(h: Header, l: seq<Relocation>)
    requires Ascending(l)
    ensures AscendingEntries(Typed(h, l))
    ensures forall e :: e in Typed(h, l) ==> exists i :: 0 <= i < |l| && l[i].offset == e.offset
  {
    hide TypeOf;
    if l != [] {
      var rest := Typed(h, l[1..]);
      TypedAscending(h, l[1..]);
      assert forall i :: 0 <= i < |l[1..]| ==> l[1..][i] == l[i + 1];
      assert forall e :: e in rest ==> l[0].offset <= e.offset;
      assert forall i :: 0 <= i < |rest| ==> rest[i] in rest;
    }
  }

  lemma {:induction false} EntriesSize(h: Header, relocs: seq<Relocation>)
    ensures |Entries(h, relocs)| == 2 * |relocs|
  {
    if relocs != [] {
      EntriesSize(h, relocs[1..]);
    }
  }

  lemma {:induction false} ReadZeros(prefix: nat, n: nat)
    ensures ReadEntries(prefix, Zeros(n)) == []
  {
    if n >= 2 {
      assert Zeros(n)[2..] == Zeros(n - 2);
      ReadZeros(prefix, n - 2);
    }
  }

  lemma {:induction false} EntryParts(h: Header, r: Relocation)
    requires r.offset < PAGE
    ensures Entry(h, r) < 65536 && Entry(h, r) / PAGE == TypeOf(h, r.value) && Entry(h, r) % PAGE == r.offset
  {
  }

  lemma {:induction false} ReadOne(prefix: nat, w: nat, rest: seq<byte>)
    requires w < 65536
    ensures ReadEntries(prefix, Le16(w) + rest) ==
            (if w / PAGE == 0 then [] else [At(prefix + w % PAGE, w / PAGE)]) + ReadEntries(prefix, rest)
  {
    Read16Le16(w);
    var b := Le16(w) + rest;
    assert b[2..] == rest;
    assert Read16(b) == Read16(Le16(w));
  }

  /** One page reads back as its relocations, with the padding skipped. */
  lemma {:induction false} ReadPage(h: Header, prefix: nat, relocs: seq<Relocation>, pad: nat)
    requires forall i :: 0 <= i < |relocs| ==> relocs[i].offset < PAGE
    ensures ReadEntries(prefix, Entries(h, relocs) + Zeros(pad)) == Typed(h, InPage(prefix, relocs))
  {
    hide ReadEntries, TypeOf, Entry;
    if relocs == [] {
      assert Entries(h, relocs) + Zeros(pad) == Zeros(pad);
      ReadZeros(prefix, pad);
    } else {
      var r := relocs[0];
      EntryParts(h, r);
      ReadOne(prefix, Entry(h, r), Entries(h, relocs[1..]) + Zeros(pad));
      assert Entries(h, relocs) + Zeros(pad) == Le16(Entry(h, r)) + (Entries(h, relocs[1..]) + Zeros(pad));
      ReadPage(h, prefix, relocs[1..], pad);
      assert InPage(prefix, relocs)[1..] == InPage(prefix, relocs[1..]);
    }
  }

  /** What is where in a block: the address of its page and its own size, four bytes each, and two bytes for
      each relocation, with 0x1000 added for a value in the code and 0x2000 for one in the data; all of it
      little-endian, with zeros up to a multiple of four. */
  lemma {:induction false} PageLayout(h: Header, p: Page, k: nat)
    requires PageOk(p) && k < |p.relocs| < 0x4000_0000
    ensures var b, n, r := PageBytes(h, p), |p.relocs|, p.relocs[k];
            |b| == 8 + 2 * n + (if n % 2 == 0 then 0 else 2) && p.prefix % 4096 == 0 && r.offset < 4096 &&
            Value(b[0]) + 0x100 * Value(b[1]) + 0x1_0000 * Value(b[2]) + 0x100_0000 * Value(b[3]) == p.prefix &&
            Value(b[4]) + 0x100 * Value(b[5]) + 0x1_0000 * Value(b[6]) + 0x100_0000 * Value(b[7]) == |b| &&
            Value(b[8 + 2 * k]) + 0x100 * Value(b[9 + 2 * k]) ==
              r.offset + (if h.codeBase <= r.value <= (h.codeBase + h.codeSize) % 0x1_0000_0000 then 0x1000
                          else if h.dataBase <= r.value <= (h.dataBase + h.dataSize + h.bssSize) % 0x1_0000_0000 then 0x2000
                          else 0) &&
            (n % 2 == 1 ==> b[8 + 2 * n] == 0 && b[9 + 2 * n] == 0)
  {
    hide Le32, Le16, Entries, Entry, TypeOf;
    var b, n := PageBytes(h, p), |p.relocs|;
    EntriesSize(h, p.relocs);
    EntryAt(h, p.relocs, k);
    EntryWord(h, p.relocs[k]);
    var size := SublistSize(n);
    Read32Le32(p.prefix);
    SmallMod(size, WORD32);
    Read32Le32(size);
    assert b[..4] == Le32(p.prefix) && b[4..8] == Le32(size) && b[8..8 + 2 * n] == Entries(h, p.relocs);
    assert b[8 + 2 * k] == b[8..8 + 2 * n][2 * k] && b[9 + 2 * k] == b[8..8 + 2 * n][2 * k + 1];
    assert forall j :: 0 <= j < 4 ==> b[j] == b[..4][j] && b[4 + j] == b[4..8][j];
    assert b[8 + 2 * n..] == Zeros(SublistPadding(n));
  }

  lemma {:induction false} EntryAt(h: Header, relocs: seq<Relocation>, k: nat)
    requires k < |relocs|
    ensures |Entries(h, relocs)| == 2 * |relocs|
    ensures Entries(h, relocs)[2 * k] == Le16(Entry(h, relocs[k]))[0] && Entries(h, relocs)[2 * k + 1] == Le16(Entry(h, relocs[k]))[1]
  {
    hide Le16, Entry;
    EntriesSize(h, relocs);
    if k > 0 {
      EntryAt(h, relocs[1..], k - 1);
      EntriesSize(h, relocs[1..]);
    }
  }

  lemma {:induction false} EntryWord(h: Header, r: Relocation)
    requires r.offset < PAGE
    ensures Value(Le16(Entry(h, r))[0]) + 0x100 * Value(Le16(Entry(h, r))[1]) ==
            r.offset + (if h.codeBase <= r.value <= (h.codeBase + h.codeSize) % 0x1_0000_0000 then 0x1000
                        else if h.dataBase <= r.value <= (h.dataBase + h.dataSize + h.bssSize) % 0x1_0000_0000 then 0x2000
                        else 0)
  {
    Read16Le16(Entry(h, r));
    hide Le16;
  }

  lemma {:induction false} PageBytesSize(h: Header, p: Page)
    ensures |PageBytes(h, p)| == SublistSize(|p.relocs|)
  {
    EntriesSize(h, p.relocs);
  }

  lemma {:induction false} BytesSize(h: Header, pages: seq<Page>)
    ensures |Bytes(h, pages)| == TotalSize(pages) && TotalSize(pages) % 4 == 0
  {
    hide PageBytes, SublistPadding;
    if pages != [] {
      PageBytesSize(h, pages[0]);
      BytesSize(h, pages[1..]);
      SumMod4(SublistSize(|pages[0].relocs|), TotalSize(pages[1..]));
    }
  }

  lemma {:induction false} SumMod4(a: nat, b: nat)
    requires a % 4 == 0 && b % 4 == 0
    ensures (a + b) % 4 == 0
  {
    assert a + b == 4 * (a / 4 + b / 4);
  }

  /** A block in front of others is read first. */
  lemma {:induction false} ReadBlock(h: Header, p: Page, rest: seq<byte>)
    requires PageOk(p) && SublistSize(|p.relocs|) < WORD32 && ReadBlocks(rest).Some?
    ensures ReadBlocks(PageBytes(h, p) + rest) == Some(Typed(h, InPage(p.prefix, p.relocs)) + ReadBlocks(rest).value)
  {
    hide Le32, Typed, InPage, ReadEntries, Read32, SublistPadding;
    var size, pad := SublistSize(|p.relocs|), SublistPadding(|p.relocs|);
    SmallMod(size, WORD32);
    var body := Entries(h, p.relocs) + Zeros(pad);
    var b := PageBytes(h, p) + rest;
    PageBytesSize(h, p);
    assert PageBytes(h, p) == Le32(p.prefix) + Le32(size) + body;
    assert b[size..] == rest && b[8..size] == body && b[..4] == Le32(p.prefix) && b[4..][..4] == Le32(size);
    ReadFirst(b, p.prefix);
    ReadFirst(b[4..], size);
    ReadPage(h, p.prefix, p.relocs, pad);
  }

  lemma {:induction false} SmallMod(x: nat, m: nat)
    requires x < m
    ensures x % m == x
  {
  }

  lemma {:induction false} ReadFirst(b: seq<byte>, x: nat)
    requires |b| >= 4 && b[..4] == Le32(x) && x < WORD32
    ensures Read32(b) == x
  {
    Read32Le32(x);
    hide Le32;
    assert b[0] == b[..4][0] && b[1] == b[..4][1] && b[2] == b[..4][2] && b[3] == b[..4][3];
  }

  /** The written pages read back as the relocations in them, in order. */
  lemma {:induction false} ReadAll(h: Header, pages: seq<Page>)
    requires PagesOk(pages) && TotalSize(pages) < WORD32
    ensures ReadBlocks(Bytes(h, pages)) == Some(Typed(h, Listing(pages)))
  {
    hide ReadBlocks, PageBytes, Typed, SublistSize, PageOk;
    if pages == [] {
      ReadNothing(h);
    } else {
      ReadAll(h, pages[1..]);
      ReadBlock(h, pages[0], Bytes(h, pages[1..]));
      TypedAppend(h, InPage(pages[0].prefix, pages[0].relocs), Listing(pages[1..]));
    }
  }

  lemma {:induction false} ReadNothing(h: Header)
    ensures ReadBlocks([]) == Some(Typed(h, []))
  {
  }

  /** Nothing is lost exactly if every value lies in the code or in the data. */
  lemma {:induction false} TypedExact(h: Header, l: seq<Relocation>)
    ensures |Typed(h, l)| <= |l|
    ensures |Typed(h, l)| == |l| <==> forall i :: 0 <= i < |l| ==> TypeOf(h, l[i].value) != 0
    ensures |Typed(h, l)| == |l| ==> forall i :: 0 <= i < |l| ==> Typed(h, l)[i] == At(l[i].offset, TypeOf(h, l[i].value))
  {
    hide TypeOf;
    if l != [] {
      TypedExact(h, l[1..]);
      assert l == [l[0]] + l[1..];
    }
  }

  lemma {:induction false} ListingAppend(a: seq<Page>, b: seq<Page>)
    ensures Listing(a + b) == Listing(a) + Listing(b)
  {
    if a == [] {
      assert a + b == b;
    } else {
      assert (a + b)[1..] == a[1..] + b;
      ListingAppend(a[1..], b);
    }
  }

  lemma {:induction false} CountListing(pages: seq<Page>)
    ensures Count(pages) == |Listing(pages)| && 2 * Count(pages) <= TotalSize(pages)
  {
    if pages != [] {
      CountListing(pages[1..]);
    }
  }

  /** Where a page changes, so does the listing. */
  lemma {:induction false} ListingAt(pages: seq<Page>, i: nat, p: Page)
    requires i < |pages|
    ensures Listing(pages) == Listing(pages[..i]) + InPage(pages[i].prefix, pages[i].relocs) + Listing(pages[i + 1..])
    ensures Listing(pages[i := p]) == Listing(pages[..i]) + InPage(p.prefix, p.relocs) + Listing(pages[i + 1..])
  {
    ListingSplit(pages[..i], pages[i], pages[i + 1..]);
    ListingSplit(pages[..i], p, pages[i + 1..]);
    hide Listing;
    assert pages == pages[..i] + [pages[i]] + pages[i + 1..];
    assert pages[i := p] == pages[..i] + [p] + pages[i + 1..];
  }

  lemma {:induction false} ListingSplit(a: seq<Page>, p: Page, b: seq<Page>)
    ensures Listing(a + [p] + b) == Listing(a) + InPage(p.prefix, p.relocs) + Listing(b)
  {
    ListingAppend(a + [p], b);
    ListingAppend(a, [p]);
    assert [p][1..] == [];
    assert Listing([p]) == InPage(p.prefix, p.relocs);
  }

  lemma {:induction false} ListingFrom(pages: seq<Page>, lo: nat)
    requires forall i :: 0 <= i < |pages| ==> lo <= pages[i].prefix
    ensures forall i :: 0 <= i < |Listing(pages)| ==> lo <= Listing(pages)[i].offset
  {
    if pages != [] {
      ListingFrom(pages[1..], lo);
    }
  }

  lemma {:induction false} PagesApart(p: Page, q: Page)
    requires PageOk(p) && PageOk(q) && p.prefix < q.prefix
    ensures p.prefix + PAGE <= q.prefix
  {
  }

  /** Sorted pages in order make one ascending list. */
  lemma {:induction false} ListingAscending(pages: seq<Page>)
    requires PagesOk(pages) && forall i :: 0 <= i < |pages| ==> Sorted(pages[i].relocs)
    ensures Ascending(Listing(pages))
  {
    if pages != [] {
      ListingAscending(pages[1..]);
      forall i | 0 <= i < |pages[1..]|
        ensures pages[0].prefix + PAGE <= pages[1..][i].prefix
      {
        PagesApart(pages[0], pages[i + 1]);
      }
      ListingFrom(pages[1..], pages[0].prefix + PAGE);
      JoinAscending(InPage(pages[0].prefix, pages[0].relocs), Listing(pages[1..]), pages[0].prefix + PAGE);
    }
  }

  lemma {:induction false} JoinAscending(a: seq<Relocation>, b: seq<Relocation>, bound: nat)
    requires Ascending(a) && Ascending(b)
    requires (forall i :: 0 <= i < |a| ==> a[i].offset < bound) && (forall i :: 0 <= i < |b| ==> bound <= b[i].offset)
    ensures Ascending(a + b)
  {
  }

  // ----- the class

  predicate Sorted(relocs: seq<Relocation>) {
    forall i, j :: 0 <= i < j < |relocs| ==> relocs[i].offset <= relocs[j].offset
  }

  method InsertSorted(sorted: seq<Relocation>, r: Relocation) returns (more: seq<Relocation>)
    requires Sorted(sorted)
    ensures Sorted(more) && multiset(more) == multiset(sorted) + multiset{r}
  {
    var n := 0;
    while n < |sorted| && sorted[n].offset <= r.offset
      invariant n <= |sorted| && forall i :: 0 <= i < n ==> sorted[i].offset <= r.offset
    {
      n := n + 1;
    }
    more := sorted[..n] + [r] + sorted[n..];
    MultisetInsert(sorted, n, r);
  }

  lemma {:induction false} MultisetInsert(s: seq<Relocation>, n: nat, r: Relocation)
    requires n <= |s|
    ensures multiset(s[..n] + [r] + s[n..]) == multiset(s) + multiset{r}
  {
    assert s == s[..n] + s[n..];
  }

  /** The relocations of a page by offset; those at the same offset in any order. */
  method SortByOffset(relocs: seq<Relocation>) returns (sorted: seq<Relocation>)
    ensures Sorted(sorted) && multiset(sorted) == multiset(relocs)
  {
    hide Sorted;
    sorted := [];
    assert Sorted(sorted) by { NothingSorted(); }
    var k := 0;
    while k < |relocs|
      invariant k <= |relocs| && Sorted(sorted) && multiset(sorted) == multiset(relocs[..k])
    {
      sorted := InsertSorted(sorted, relocs[k]);
      assert relocs[..k + 1] == relocs[..k] + [relocs[k]];
      k := k + 1;
    }
    assert relocs[..k] == relocs;
  }

  lemma {:induction false} NothingSorted()
    ensures Sorted([])
  {
  }

  lemma {:induction false} CountInPage(prefix: nat, a: seq<Relocation>, y: Relocation)
    ensures multiset(InPage(prefix, a))[y] ==
            if y.offset < prefix then 0 else multiset(a)[Relocation(y.offset - prefix, y.value)]
  {
    hide InPage;
    if a == [] {
      assert InPage(prefix, a) == [];
    } else {
      CountInPage(prefix, a[1..], y);
      var x := Relocation(prefix + a[0].offset, a[0].value);
      InPageCons(prefix, a);
      CountCons(x, InPage(prefix, a[1..]), y);
      if y.offset >= prefix {
        assert a == [a[0]] + a[1..];
        CountCons(a[0], a[1..], Relocation(y.offset - prefix, y.value));
      }
    }
  }

  lemma {:induction false} InPageCons(prefix: nat, a: seq<Relocation>)
    requires a != []
    ensures InPage(prefix, a) == [Relocation(prefix + a[0].offset, a[0].value)] + InPage(prefix, a[1..])
  {
  }

  lemma {:induction false} CountCons(x: Relocation, s: seq<Relocation>, y: Relocation)
    ensures multiset([x] + s)[y] == multiset(s)[y] + if x == y then 1 else 0
  {
  }

  /** Reordering a page does not change which relocations it has. */
  lemma {:induction false} InPageSame(prefix: nat, a: seq<Relocation>, b: seq<Relocation>)
    requires multiset(a) == multiset(b)
    ensures multiset(InPage(prefix, a)) == multiset(InPage(prefix, b))
  {
    forall y: Relocation
      ensures multiset(InPage(prefix, a))[y] == multiset(InPage(prefix, b))[y]
    {
      CountInPage(prefix, a, y);
      CountInPage(prefix, b, y);
    }
  }

  class RelocationList {
    var sublists: seq<Page>
    ghost var added: seq<Relocation>   // what was added, with full offsets

    ghost predicate Valid()
      reads this
    {
      PagesOk(sublists) && multiset(Listing(sublists)) == multiset(added)
    }

    constructor ()
      ensures Valid() && added == []
    {
      sublists, added := [], [];
    }

    /** Files a relocation under its page. */
    method AddRelocation(offset: nat, value: nat)
      requires Valid() && offset < WORD32
      modifies this
      ensures Valid() && added == old(added) + [Relocation(offset, value)]
    {
      PrefixOk(offset, value);
      hide PageOk;
      Append(offset - offset % PAGE, Relocation(offset % PAGE, value));
    }

    /** Appends to the relocations of a page, which is made if there is none. */
    method Append(prefix: nat, r: Relocation)
      requires Valid() && PageOk(Page(prefix, [r]))
      modifies this
      ensures Valid() && added == old(added) + [Relocation(prefix + r.offset, r.value)]
    {
      var k := FindPage(prefix);
      FiledOk(sublists, k, prefix, r);
      FiledListing(sublists, added, k, prefix, r);
      hide Valid, PagesOk, Listing, PageOk;
      if k < |sublists| && sublists[k].prefix == prefix {
        sublists := sublists[k := Page(prefix, sublists[k].relocs + [r])];
      } else {
        sublists := sublists[..k] + [Page(prefix, [r])] + sublists[k..];
      }
      added := added + [Relocation(prefix + r.offset, r.value)];
      assert Valid() by { NowValid(); }
    }

    lemma {:induction false} NowValid()
      requires PagesOk(sublists) && multiset(Listing(sublists)) == multiset(added)
      ensures Valid()
    {
    }

    /** The first page not below `prefix`. */
    method FindPage(prefix: nat) returns (k: nat)
      ensures FitsAt(sublists, k, prefix)
    {
      k := 0;
      while k < |sublists| && sublists[k].prefix < prefix
        invariant k <= |sublists| && forall i :: 0 <= i < k ==> sublists[i].prefix < prefix
      {
        k := k + 1;
      }
    }

    /** The sizes of the blocks, and how many relocations there are. */
    method Measure() returns (size: nat, num: nat)
      ensures size == TotalSize(sublists) && num == Count(sublists)
    {
      hide SublistSize;
      size, num := 0, 0;
      var k := 0;
      while k < |sublists|
        invariant k <= |sublists|
        invariant size + TotalSize(sublists[k..]) == TotalSize(sublists) && num + Count(sublists[k..]) == Count(sublists)
      {
        assert sublists[k..][1..] == sublists[k + 1..];
        size := size + SublistSize(|sublists[k].relocs|);
        num := num + |sublists[k].relocs|;
        k := k + 1;
      }
    }

    /** Sorts the relocations of a page and writes its block. */
    method WriteSublist(h: Header, k: nat) returns (out: seq<byte>)
      requires Valid() && k < |sublists|
      modifies this`sublists
      ensures Valid() && |sublists| == |old(sublists)| && TotalSize(sublists) == TotalSize(old(sublists))
      ensures sublists == old(sublists)[k := sublists[k]] && sublists[k].prefix == old(sublists)[k].prefix
      ensures Sorted(sublists[k].relocs) && out == PageBytes(h, sublists[k])
    {
      var relocs := SortByOffset(sublists[k].relocs);
      SortedPage(sublists, k, relocs);
      hide Valid, PagesOk, Listing, Sorted, TotalSize, Entries, Le32, Zeros, SublistPadding, SublistSize;
      sublists := sublists[k := Page(sublists[k].prefix, relocs)];
      assert Valid() by { NowValid(); }
      var entries := WriteEntries(h, relocs);
      out := Le32(sublists[k].prefix) + Le32(U32(SublistSize(|relocs|))) + entries + Zeros(SublistPadding(|relocs|));
    }

    /** Writes the whole section: its size, the number of relocations, and the blocks. */
    method Write(h: Header) returns (out: seq<byte>)
      requires Valid()
      modifies this`sublists
      ensures Valid() && Ascending(Listing(sublists))
      ensures TotalSize(sublists) < WORD32 ==> IsSection(h, out, added)
      ensures out == Le32(U32(TotalSize(sublists))) + Le32(U32(Count(sublists))) + Bytes(h, sublists)
    {
      var size, num := Measure();
      CountIsAdded();
      hide Valid, Bytes, TotalSize, Count, Le32, U32, Listing, Ascending, IsSection;
      var blocks := WriteBlocks(h);
      CountIsAdded();
      out := Le32(U32(size)) + Le32(U32(num)) + blocks;
      if TotalSize(sublists) < WORD32 {
        SectionOfAdded(h);
      }
    }

    lemma {:induction false} SectionOfAdded(h: Header)
      requires Valid() && Ascending(Listing(sublists)) && TotalSize(sublists) < WORD32
      ensures IsSection(h, Le32(U32(TotalSize(sublists))) + Le32(U32(Count(sublists))) + Bytes(h, sublists), added)
    {
      hide IsSection, Listing, PagesOk, Bytes, Ascending;
      WrittenSection(h, sublists, added);
    }

    /** Writes the blocks of all pages. */
    method WriteBlocks(h: Header) returns (out: seq<byte>)
      requires Valid()
      modifies this`sublists
      ensures Valid() && Ascending(Listing(sublists)) && out == Bytes(h, sublists) && TotalSize(sublists) == TotalSize(old(sublists))
    {
      hide Valid, Listing, Bytes, Sorted, TotalSize, PageBytes, Ascending, SortedUpTo;
      out := [];
      BytesNone(h);
      var k := 0;
      assert SortedUpTo(sublists, 0) by { NoneSorted(sublists); }
      while k < |sublists|
        invariant k <= |sublists| && Valid() && out == Bytes(h, sublists[..k])
        invariant SortedUpTo(sublists, k) && TotalSize(sublists) == TotalSize(old(sublists))
      {
        ghost var before := sublists;
        var block := WriteSublist(h, k);
        OneMoreSorted(h, before, sublists, k);
        out := out + block;
        k := k + 1;
      }
      assert sublists[..k] == sublists;
      AllSorted();
    }

    lemma {:induction false} AllSorted()
      requires Valid() && SortedUpTo(sublists, |sublists|)
      ensures Ascending(Listing(sublists))
    {
      ListingAscending(sublists);
    }

    lemma {:induction false} CountIsAdded()
      requires Valid()
      ensures Count(sublists) == |added|
    {
      SameCount(sublists, added);
    }
  }

  /** The 16-bit entries of a page. */
  method WriteEntries(h: Header, relocs: seq<Relocation>) returns (out: seq<byte>)
    ensures out == Entries(h, relocs)
  {
    hide Le16;
    out := [];
    var i := 0;
    while i < |relocs|
      invariant i <= |relocs| && out + Entries(h, relocs[i..]) == Entries(h, relocs)
    {
      assert relocs[i..][1..] == relocs[i + 1..];
      var reloc := relocs[i].offset;
      var addr := relocs[i].value;
      if addr >= h.codeBase && addr <= (h.codeBase + h.codeSize) % WORD32 {
        reloc := reloc + TEXT_TYPE;
      } else if addr >= h.dataBase && addr <= (h.dataBase + h.dataSize + h.bssSize) % WORD32 {
        reloc := reloc + DATA_TYPE;
      }
      EntryIs(h, relocs[i], reloc);
      assert out + (Le16(reloc) + Entries(h, relocs[i + 1..])) == out + Le16(reloc) + Entries(h, relocs[i + 1..]);
      out := out + Le16(reloc);
      i := i + 1;
    }
  }

  lemma {:induction false} EntryIs(h: Header, r: Relocation, reloc: nat)
    requires reloc == r.offset + (if h.codeBase <= r.value <= (h.codeBase + h.codeSize) % WORD32 then TEXT_TYPE
                                  else if h.dataBase <= r.value <= (h.dataBase + h.dataSize + h.bssSize) % WORD32 then DATA_TYPE else 0)
    ensures reloc == Entry(h, r)
  {
  }

  /** The pages with one more relocation, filed at `k`. */
  function FiledIn(pages: seq<Page>, k: nat, prefix: nat, r: Relocation): seq<Page>
    requires k <= |pages|
  {
    if k < |pages| && pages[k].prefix == prefix then pages[k := Page(prefix, pages[k].relocs + [r])]
    else pages[..k] + [Page(prefix, [r])] + pages[k..]
  }

  /** It may be filed there. */
  predicate FitsAt(pages: seq<Page>, k: nat, prefix: nat) {
    k <= |pages| && (forall i :: 0 <= i < k ==> pages[i].prefix < prefix) && (k < |pages| ==> prefix <= pages[k].prefix)
  }

  lemma {:induction false} FiledOk(pages: seq<Page>, k: nat, prefix: nat, r: Relocation)
    requires PagesOk(pages) && FitsAt(pages, k, prefix) && PageOk(Page(prefix, [r]))
    ensures PagesOk(FiledIn(pages, k, prefix, r))
  {
    assert r.offset < PAGE by { assert Page(prefix, [r]).relocs[0] == r; }
    hide PageOk, PagesOk;
    if k < |pages| && pages[k].prefix == prefix {
      PageMore(pages, k, r);
    } else {
      PageBetween(pages, k, Page(prefix, [r]));
    }
  }

  lemma {:induction false} FiledListing(pages: seq<Page>, added: seq<Relocation>, k: nat, prefix: nat, r: Relocation)
    requires multiset(Listing(pages)) == multiset(added) && k <= |pages|
    ensures multiset(Listing(FiledIn(pages, k, prefix, r))) == multiset(added + [Relocation(prefix + r.offset, r.value)])
  {
    hide Listing;
    if k < |pages| && pages[k].prefix == prefix {
      AddedToPage(pages, k, r);
    } else {
      AddedPage(pages, k, prefix, r);
    }
  }

  lemma {:induction false} PrefixOk(offset: nat, value: nat)
    requires offset < WORD32
    ensures offset % PAGE <= offset && PageOk(Page(offset - offset % PAGE, [Relocation(offset % PAGE, value)]))
  {
    assert offset - offset % PAGE == PAGE * (offset / PAGE);
  }

  lemma {:induction false} PageMore(pages: seq<Page>, k: nat, r: Relocation)
    requires PagesOk(pages) && k < |pages| && r.offset < PAGE
    ensures PagesOk(pages[k := Page(pages[k].prefix, pages[k].relocs + [r])])
  {
    var p := Page(pages[k].prefix, pages[k].relocs + [r]);
    assert PageOk(pages[k]);
    assert PageOk(p);
    hide PageOk;
    assert forall i :: 0 <= i < |pages| ==> pages[k := p][i].prefix == pages[i].prefix;
  }

  lemma {:induction false} AddedToPage(pages: seq<Page>, k: nat, r: Relocation)
    requires k < |pages|
    ensures multiset(Listing(pages[k := Page(pages[k].prefix, pages[k].relocs + [r])])) ==
            multiset(Listing(pages)) + multiset{Relocation(pages[k].prefix + r.offset, r.value)}
  {
    hide Listing, InPage;
    var prefix, relocs := pages[k].prefix, pages[k].relocs;
    ListingAt(pages, k, Page(prefix, relocs + [r]));
    InPageMore(prefix, relocs, r);
    MultisetMiddle(Listing(pages[..k]), InPage(prefix, relocs), Relocation(prefix + r.offset, r.value), Listing(pages[k + 1..]));
  }

  lemma {:induction false} InPageMore(prefix: nat, relocs: seq<Relocation>, r: Relocation)
    ensures InPage(prefix, relocs + [r]) == InPage(prefix, relocs) + [Relocation(prefix + r.offset, r.value)]
  {
  }

  lemma {:induction false} MultisetMiddle(a: seq<Relocation>, b: seq<Relocation>, x: Relocation, c: seq<Relocation>)
    ensures multiset(a + (b + [x]) + c) == multiset(a + b + c) + multiset{x}
  {
    assert multiset(a + (b + [x]) + c) == multiset(a + (b + [x])) + multiset(c);
    assert multiset(a + b + c) == multiset(a + b) + multiset(c);
  }

  lemma {:induction false} PageBetween(pages: seq<Page>, k: nat, p: Page)
    requires PagesOk(pages) && k <= |pages| && PageOk(p)
    requires (forall i :: 0 <= i < k ==> pages[i].prefix < p.prefix) && (k < |pages| ==> p.prefix < pages[k].prefix)
    ensures PagesOk(pages[..k] + [p] + pages[k..])
  {
    hide PageOk;
    var more := pages[..k] + [p] + pages[k..];
    assert forall i :: 0 <= i < |more| ==> more[i] == if i < k then pages[i] else if i == k then p else pages[i - 1];
    assert forall i :: k <= i < |pages| ==> p.prefix < pages[i].prefix;
  }

  lemma {:induction false} AddedPage(pages: seq<Page>, k: nat, prefix: nat, r: Relocation)
    requires k <= |pages|
    ensures multiset(Listing(pages[..k] + [Page(prefix, [r])] + pages[k..])) ==
            multiset(Listing(pages)) + multiset{Relocation(prefix + r.offset, r.value)}
  {
    hide Listing, InPage;
    ListingSplit(pages[..k], Page(prefix, [r]), pages[k..]);
    ListingAppend(pages[..k], pages[k..]);
    assert pages == pages[..k] + pages[k..];
    InPageMore(prefix, [], r);
    assert [] + [r] == [r] && InPage(prefix, []) == [];
    MultisetMiddle(Listing(pages[..k]), [], Relocation(prefix + r.offset, r.value), Listing(pages[k..]));
    assert Listing(pages[..k]) + [] == Listing(pages[..k]);
  }

  predicate SortedUpTo(pages: seq<Page>, k: nat) {
    k <= |pages| && forall i :: 0 <= i < k ==> Sorted(pages[i].relocs)
  }

  lemma {:induction false} NoneSorted(pages: seq<Page>)
    ensures SortedUpTo(pages, 0)
  {
  }

  lemma {:induction false} OneMoreSorted(h: Header, pages: seq<Page>, pages': seq<Page>, k: nat)
    requires k < |pages| == |pages'| && SortedUpTo(pages, k) && pages' == pages[k := pages'[k]] && Sorted(pages'[k].relocs)
    ensures SortedUpTo(pages', k + 1)
    ensures Bytes(h, pages'[..k + 1]) == Bytes(h, pages[..k]) + PageBytes(h, pages'[k])
  {
    hide Sorted, Bytes, PageBytes;
    assert pages'[..k + 1] == pages[..k] + [pages'[k]];
    BytesAppend(h, pages[..k], pages'[k]);
  }

  lemma {:induction false} BytesNone(h: Header)
    ensures Bytes(h, []) == []
  {
  }

  lemma {:induction false} BytesAppend(h: Header, a: seq<Page>, p: Page)
    ensures Bytes(h, a + [p]) == Bytes(h, a) + PageBytes(h, p)
  {
    hide PageBytes;
    if a == [] {
      assert a + [p] == [p] && [p][1..] == [];
    } else {
      assert (a + [p])[1..] == a[1..] + [p];
      BytesAppend(h, a[1..], p);
    }
  }

  /** Sorting a page keeps everything else. */
  lemma {:induction false} SortedPage(pages: seq<Page>, k: nat, relocs: seq<Relocation>)
    requires PagesOk(pages) && k < |pages| && multiset(relocs) == multiset(pages[k].relocs)
    ensures PagesOk(pages[k := Page(pages[k].prefix, relocs)])
    ensures multiset(Listing(pages[k := Page(pages[k].prefix, relocs)])) == multiset(Listing(pages))
    ensures |relocs| == |pages[k].relocs|
    ensures TotalSize(pages[k := Page(pages[k].prefix, relocs)]) == TotalSize(pages)
  {
    SameSize(relocs, pages[k].relocs);
    SortedPageOk(pages, k, relocs);
    SortedListing(pages, k, relocs);
    SameTotal(pages, k, Page(pages[k].prefix, relocs));
  }

  lemma {:induction false} SameSize(a: seq<Relocation>, b: seq<Relocation>)
    requires multiset(a) == multiset(b)
    ensures |a| == |b|
  {
    assert |multiset(a)| == |a| && |multiset(b)| == |b|;
  }

  lemma {:induction false} SortedPageOk(pages: seq<Page>, k: nat, relocs: seq<Relocation>)
    requires PagesOk(pages) && k < |pages| && multiset(relocs) == multiset(pages[k].relocs)
    ensures PagesOk(pages[k := Page(pages[k].prefix, relocs)])
  {
    var p := Page(pages[k].prefix, relocs);
    assert PageOk(pages[k]);
    assert PageOk(p) by {
      forall i | 0 <= i < |relocs|
        ensures relocs[i].offset < PAGE
      {
        assert relocs[i] in multiset(relocs);
        assert relocs[i] in multiset(pages[k].relocs);
      }
    }
    hide PageOk;
    assert forall i :: 0 <= i < |pages| ==> pages[k := p][i].prefix == pages[i].prefix;
  }

  lemma {:induction false} SortedListing(pages: seq<Page>, k: nat, relocs: seq<Relocation>)
    requires k < |pages| && multiset(relocs) == multiset(pages[k].relocs)
    ensures multiset(Listing(pages[k := Page(pages[k].prefix, relocs)])) == multiset(Listing(pages))
  {
    hide Listing, InPage;
    var prefix := pages[k].prefix;
    ListingAt(pages, k, Page(prefix, relocs));
    InPageSame(prefix, relocs, pages[k].relocs);
    MultisetAround(Listing(pages[..k]), InPage(prefix, relocs), InPage(prefix, pages[k].relocs), Listing(pages[k + 1..]));
  }

  lemma {:induction false} MultisetAround(a: seq<Relocation>, b: seq<Relocation>, b': seq<Relocation>, c: seq<Relocation>)
    requires multiset(b) == multiset(b')
    ensures multiset(a + b + c) == multiset(a + b' + c)
  {
    assert multiset(a + b + c) == multiset(a + b) + multiset(c);
    assert multiset(a + b' + c) == multiset(a + b') + multiset(c);
  }

  lemma {:induction false} SameTotal(pages: seq<Page>, k: nat, p: Page)
    requires k < |pages| && |p.relocs| == |pages[k].relocs|
    ensures TotalSize(pages[k := p]) == TotalSize(pages)
  {
    hide SublistSize;
    if k == 0 {
      assert pages[0 := p][1..] == pages[1..];
    } else {
      assert pages[k := p][1..] == pages[1..][k - 1 := p];
      SameTotal(pages[1..], k - 1, p);
    }
  }

  lemma {:induction false} SameCount(pages: seq<Page>, added: seq<Relocation>)
    requires multiset(Listing(pages)) == multiset(added)
    ensures Count(pages) == |added|
  {
    CountListing(pages);
    SameSize(Listing(pages), added);
  }

  /** The bytes of a section are read as: the size of the rest, the number of relocations added,
      and then, by ascending offset, exactly those that have a value in the code or in the data,
      with their full offsets and types. */
  predicate IsSection(h: Header, out: seq<byte>, added: seq<Relocation>) {
    |out| >= 8 && |out| % 4 == 0 && Read32(out) == |out| - 8 && Read32(out[4..]) == |added| &&
    var es := ReadBlocks(out[8..]);
    es.Some? && multiset(es.value) == multiset(Typed(h, added)) && AscendingEntries(es.value) &&
    (|es.value| == |added| <==> forall i :: 0 <= i < |added| ==> TypeOf(h, added[i].value) != 0)
  }

  /** A section of pages that hold the relocations added, sorted. */
  lemma {:induction false} WrittenSection(h: Header, pages: seq<Page>, added: seq<Relocation>)
    requires PagesOk(pages) && multiset(Listing(pages)) == multiset(added) && TotalSize(pages) < WORD32
    requires Ascending(Listing(pages))
    ensures IsSection(h, Le32(U32(TotalSize(pages))) + Le32(U32(Count(pages))) + Bytes(h, pages), added)
  {
    hide Le32, Bytes, Listing, Typed, Read32, PagesOk, ReadBlocks, Count, TotalSize, AscendingEntries, Ascending, TypeOf;
    var out := Le32(U32(TotalSize(pages))) + Le32(U32(Count(pages))) + Bytes(h, pages);
    SectionWords(h, pages, added, out);
    TypedMultiset(h, Listing(pages), added);
    SameEntries(Typed(h, Listing(pages)), Typed(h, added));
    TypedAscending(h, Listing(pages));
    TypedExact(h, added);
  }

  lemma {:induction false} SameEntries(a: seq<Entry16>, b: seq<Entry16>)
    requires multiset(a) == multiset(b)
    ensures |a| == |b|
  {
    assert |multiset(a)| == |a| && |multiset(b)| == |b|;
  }

  lemma {:induction false} SectionWords(h: Header, pages: seq<Page>, added: seq<Relocation>, out: seq<byte>)
    requires PagesOk(pages) && multiset(Listing(pages)) == multiset(added) && TotalSize(pages) < WORD32
    requires out == Le32(U32(TotalSize(pages))) + Le32(U32(Count(pages))) + Bytes(h, pages)
    ensures |out| >= 8 && |out| % 4 == 0 && Read32(out) == |out| - 8 && Read32(out[4..]) == |added|
    ensures ReadBlocks(out[8..]) == Some(Typed(h, Listing(pages)))
  {
    hide Le32, Bytes, Listing, Typed, Read32, PagesOk, ReadBlocks, Count, TotalSize;
    SameCount(pages, added);
    CountListing(pages);
    BytesSize(h, pages);
    SmallMod(TotalSize(pages), WORD32);
    SmallMod(Count(pages), WORD32);
    ReadAll(h, pages);
    assert out[..4] == Le32(TotalSize(pages)) && out[4..][..4] == Le32(Count(pages)) && out[8..] == Bytes(h, pages);
    ReadFirst(out, TotalSize(pages));
    ReadFirst(out[4..], Count(pages));
    SumMod4(8, TotalSize(pages));
  }
}
