/** The checksum of a UID triple, as two tools compute it. */
module UidChecksum {
  import opened Division
  import opened Words16
  import opened Crc
  import opened CrcLoops

  function Byte0(u: bv32): bv8 {
    (u & 0xff) as bv8
  }

  function Byte1(u: bv32): bv8 {
    ((u >> 8) & 0xff) as bv8
  }

  function Byte2(u: bv32): bv8 {
    ((u >> 16) & 0xff) as bv8
  }

  function Byte3(u: bv32): bv8 {
    ((u >> 24) & 0xff) as bv8
  }

  /** The bytes at even and at odd places of the UIDs, little-endian. */
  function Evens(uids: seq<bv32>): seq<bv8> {
    if uids == [] then [] else Evens(uids[..|uids| - 1]) + [Byte0(uids[|uids| - 1]), Byte2(uids[|uids| - 1])]
  }

  function Odds(uids: seq<bv32>): seq<bv8> {
    if uids == [] then [] else Odds(uids[..|uids| - 1]) + [Byte1(uids[|uids| - 1]), Byte3(uids[|uids| - 1])]
  }

  function Wide(r: bv16): bv32 {
    r as bv32
  }

  function Join(high: bv32, low: bv32): bv32 {
    (high << 16) | low
  }

  /** The CRC of the odd bytes above the CRC of the even bytes. */
  function UidCheck(uids: seq<bv32>): bv32 {
    Join(Wide(CrcFrom(0, Odds(uids))), Wide(CrcFrom(0, Evens(uids))))
  }

  function FromBytes(b0: bv8, b1: bv8, b2: bv8, b3: bv8): bv32 {
    (b0 as bv32) | ((b1 as bv32) << 8) | ((b2 as bv32) << 16) | ((b3 as bv32) << 24)
  }

  /** The upper half is the CRC of the second and fourth bytes of the UIDs, counted from the least
      significant one, and the lower half that of the others. */
  lemma {:induction false} CheckHalves(a: seq<bv8>, b: seq<bv8>, c: seq<bv8>)
    requires |a| == |b| == |c| == 4
    ensures var check := UidCheck([FromBytes(a[0], a[1], a[2], a[3]), FromBytes(b[0], b[1], b[2], b[3]), FromBytes(c[0], c[1], c[2], c[3])]);
            (check >> 16) as bv16 == CrcFrom(0, [a[1], a[3], b[1], b[3], c[1], c[3]]) &&
            (check & 0xffff) as bv16 == CrcFrom(0, [a[0], a[2], b[0], b[2], c[0], c[2]])
  {
    hide CrcFrom, Byte0, Byte1, Byte2, Byte3, Wide, Join, Evens, Odds, FromBytes;
    BytesOf(a[0], a[1], a[2], a[3]);
    BytesOf(b[0], b[1], b[2], b[3]);
    BytesOf(c[0], c[1], c[2], c[3]);
    var u, v, w := FromBytes(a[0], a[1], a[2], a[3]), FromBytes(b[0], b[1], b[2], b[3]), FromBytes(c[0], c[1], c[2], c[3]);
    ThreeUids(u, v, w);
    HalvesOf(CrcFrom(0, Odds([u, v, w])), CrcFrom(0, Evens([u, v, w])));
  }

  lemma {:induction false} BytesOf(b0: bv8, b1: bv8, b2: bv8, b3: bv8)
    ensures var u := FromBytes(b0, b1, b2, b3); Byte0(u) == b0 && Byte1(u) == b1 && Byte2(u) == b2 && Byte3(u) == b3
  {
  }

  lemma {:induction false} HalvesOf(high: bv16, low: bv16)
    ensures var check := Join(Wide(high), Wide(low)); (check >> 16) as bv16 == high && (check & 0xffff) as bv16 == low
  {
  }

  // ----- elf2e32

  method UidCrc(uid1: bv32, uid2: bv32, uid3: bv32) returns (crc: bv32)
    ensures crc == UidCheck([uid1, uid2, uid3])
  {
    hide CrcFrom, Byte0, Byte1, Byte2, Byte3, Wide, Join;
    var buf1 := [Byte1(uid1), Byte3(uid1), Byte1(uid2), Byte3(uid2), Byte1(uid3), Byte3(uid3)];
    var buf2 := [Byte0(uid1), Byte2(uid1), Byte0(uid2), Byte2(uid2), Byte0(uid3), Byte2(uid3)];
    ThreeUids(uid1, uid2, uid3);
    var crc1 := CrcSlow(buf1);
    var crc2 := CrcSlow(buf2);
    crc := Join(Wide(crc1), Wide(crc2));
  }

  lemma {:induction false} ThreeUids(u: bv32, v: bv32, w: bv32)
    ensures Evens([u, v, w]) == [Byte0(u), Byte2(u), Byte0(v), Byte2(v), Byte0(w), Byte2(w)]
    ensures Odds([u, v, w]) == [Byte1(u), Byte3(u), Byte1(v), Byte3(v), Byte1(w), Byte3(w)]
  {
    hide Byte0, Byte1, Byte2, Byte3;
    assert [u, v, w][..2] == [u, v] && [u, v][..1] == [u] && [u][..0] == [];
    assert Evens([u]) == Evens([]) + [Byte0(u), Byte2(u)] && Odds([u]) == Odds([]) + [Byte1(u), Byte3(u)];
    assert Evens([u, v]) == Evens([u]) + [Byte0(v), Byte2(v)] && Odds([u, v]) == Odds([u]) + [Byte1(v), Byte3(v)];
  }

  // ----- genaif

  function Narrow(acc: bv32): bv16 {
    (acc & 0xffff) as bv16
  }

  predicate Bit15(acc: bv32) {
    acc & 0x8000 != 0
  }

  function Left32(acc: bv32): bv32 {
    acc << 1
  }

  function Xor32(a: bv32, b: bv32): bv32 {
    a ^ b
  }

  function Top32(c: bv8): bv32 {
    (c as bv32) << 8
  }

  function Low16(acc: bv32): bv32 {
    acc & 0xffff
  }

  /** The accumulator is wider than the remainder; what is above bit 15 never comes back. */
  lemma {:induction false} NarrowLeft(acc: bv32)
    ensures Narrow(Left32(acc)) == Left(Narrow(acc)) && (Bit15(acc) <==> TopSet(Narrow(acc)))
  {
  }

  lemma {:induction false} NarrowXor(a: bv32, b: bv32)
    ensures Narrow(Xor32(a, b)) == Xor(Narrow(a), Narrow(b))
  {
  }

  lemma {:induction false} NarrowConstants(c: bv8)
    ensures Narrow(0x1021) == 0x1021 && Narrow(Top32(c)) == Top(c)
  {
  }

  lemma {:induction false} NarrowWide(acc: bv32, r: bv16)
    ensures Low16(acc) == Wide(Narrow(acc)) && Narrow(Wide(r)) == r
  {
  }

  method DoCrc16(crc: bv32, c: bv8) returns (r: bv32)
    ensures r == Wide(ByteStep(Narrow(crc), c))
  {
    hide Steps, Step8, Bit15, TopSet, Left32, Left, Xor32, Xor, Top32, Top, Narrow, Wide, Low16;
    NarrowConstants(c);
    NarrowXor(crc, Top32(c));
    var acc := Xor32(crc, Top32(c));
    ghost var first := Xor(Narrow(crc), Top(c));
    StepsStart(first);
    var i := 0;
    while i < 8
      invariant 0 <= i <= 8 && Narrow(acc) == Steps(first, i)
    {
      StepsNext(first, i);
      NarrowLeft(acc);
      if Bit15(acc) {
        acc := Left32(acc);
        NarrowXor(acc, 0x1021);
        acc := Xor32(acc, 0x1021);
      } else {
        acc := Left32(acc);
      }
      i := i + 1;
    }
    EightSteps(first);
    NarrowWide(acc, 0);
    r := Low16(acc);
  }

  method UidCsum(uids: seq<bv32>) returns (sum: bv32)
    requires |uids| == 3
    ensures sum == UidCheck(uids)
  {
    hide CrcFrom, Byte0, Byte1, Byte2, Byte3, Wide, Narrow, Join, ByteStep;
    var crc1: bv32, crc2: bv32 := 0, 0;
    CrcStart(0);
    WideZero();
    var i := 0;
    while i < 3
      invariant 0 <= i <= 3
      invariant crc1 == Wide(CrcFrom(0, Evens(uids[..i]))) && crc2 == Wide(CrcFrom(0, Odds(uids[..i])))
    {
      assert uids[..i + 1][..i] == uids[..i];
      TwoMore(Evens(uids[..i]), Byte0(uids[i]), Byte2(uids[i]));
      TwoMore(Odds(uids[..i]), Byte1(uids[i]), Byte3(uids[i]));
      crc1 := DoCrc16(crc1, Byte0(uids[i]));
      crc2 := DoCrc16(crc2, Byte1(uids[i]));
      crc1 := DoCrc16(crc1, Byte2(uids[i]));
      crc2 := DoCrc16(crc2, Byte3(uids[i]));
      i := i + 1;
    }
    assert uids[..i] == uids;
    sum := Join(crc2, crc1);
  }

  lemma {:induction false} WideZero()
    ensures Wide(0) == 0
  {
  }

  lemma {:induction false} TwoMore(s: seq<bv8>, b: bv8, c: bv8)
    ensures var r := ByteStep(CrcFrom(0, s), b);
            CrcFrom(0, s + [b, c]) == ByteStep(r, c) && Narrow(Wide(CrcFrom(0, s))) == CrcFrom(0, s) && Narrow(Wide(r)) == r
  {
    hide Wide, Narrow, ByteStep;
    NarrowWide(0, CrcFrom(0, s));
    NarrowWide(0, ByteStep(CrcFrom(0, s), b));
    assert (s + [b, c])[..|s| + 1] == s + [b] && (s + [b])[..|s|] == s;
    assert CrcFrom(0, s + [b]) == ByteStep(CrcFrom(0, s), b);
  }

  // ----- what the checksum finds

  lemma {:induction false} JoinInjective(a: bv16, b: bv16, c: bv16, d: bv16)
    requires Join(Wide(a), Wide(b)) == Join(Wide(c), Wide(d))
    ensures a == c && b == d
  {
  }

  lemma {:induction false} SameBytes(u: bv32, v: bv32)
    requires Byte0(u) == Byte0(v) && Byte1(u) == Byte1(v) && Byte2(u) == Byte2(v) && Byte3(u) == Byte3(v)
    ensures u == v
  {
  }

  lemma {:induction false} BytesAppend(s: seq<bv32>, t: seq<bv32>)
    ensures Evens(s + t) == Evens(s) + Evens(t) && Odds(s + t) == Odds(s) + Odds(t)
  {
    hide Byte0, Byte1, Byte2, Byte3;
    if t == [] {
      assert s + t == s;
    } else {
      assert (s + t)[..|s + t| - 1] == s + t[..|t| - 1];
      BytesAppend(s, t[..|t| - 1]);
    }
  }

  lemma {:induction false} OneUid(u: bv32)
    ensures Evens([u]) == [Byte0(u), Byte2(u)] && Odds([u]) == [Byte1(u), Byte3(u)]
  {
    hide Byte0, Byte1, Byte2, Byte3;
    assert [u][..0] == [] && Evens([]) == [] && Odds([]) == [];
  }

  /** A change to any one UID changes the checksum. */
  lemma {:induction false} UidChangeDetected(before: seq<bv32>, u: bv32, v: bv32, after: seq<bv32>)
    requires u != v
    ensures UidCheck(before + [u] + after) != UidCheck(before + [v] + after)
  {
    hide CrcFrom, Evens, Odds, Byte0, Byte1, Byte2, Byte3, Wide, Join;
    Around(before, u, after);
    Around(before, v, after);
    if Evens([u]) == Evens([v]) && Odds([u]) == Odds([v]) {
      SameUid(u, v);
    }
    if Evens([u]) != Evens([v]) {
      TwoBytesDetected(0, Evens(before), Evens([u]), Evens([v]), Evens(after));
    } else {
      TwoBytesDetected(0, Odds(before), Odds([u]), Odds([v]), Odds(after));
    }
    if UidCheck(before + [u] + after) == UidCheck(before + [v] + after) {
      JoinInjective(CrcFrom(0, Odds(before + [u] + after)), CrcFrom(0, Evens(before + [u] + after)),
                    CrcFrom(0, Odds(before + [v] + after)), CrcFrom(0, Evens(before + [v] + after)));
    }
  }

  lemma {:induction false} Around(before: seq<bv32>, u: bv32, after: seq<bv32>)
    ensures Evens(before + [u] + after) == Evens(before) + Evens([u]) + Evens(after)
    ensures Odds(before + [u] + after) == Odds(before) + Odds([u]) + Odds(after)
    ensures |Evens([u])| == |Odds([u])| == 2
  {
    OneUid(u);
    hide Evens, Odds;
    BytesAppend(before + [u], after);
    BytesAppend(before, [u]);
  }

  lemma {:induction false} SameUid(u: bv32, v: bv32)
    requires Evens([u]) == Evens([v]) && Odds([u]) == Odds([v])
    ensures u == v
  {
    hide Byte0, Byte1, Byte2, Byte3, Evens, Odds;
    OneUid(u);
    OneUid(v);
    assert Evens([u])[0] == Byte0(u) && Evens([u])[1] == Byte2(u) && Odds([u])[0] == Byte1(u) && Odds([u])[1] == Byte3(u);
    assert Evens([v])[0] == Byte0(v) && Evens([v])[1] == Byte2(v) && Odds([v])[0] == Byte1(v) && Odds([v])[1] == Byte3(v);
    SameBytes(u, v);
  }
}
