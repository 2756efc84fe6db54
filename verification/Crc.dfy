/** CRC-CCITT as division of a message, bit by bit and byte by byte, and what it detects. */
module Crc {
  import opened Division
  import opened Words16

  // ----- the reference: division bit by bit

  /** The remainder after one more bit of a message. */
  function BitStep(r: bv16, bit: bool): bv16 {
    Step(if bit then Xor(r, 0x8000) else r)
  }

  function CrcBits(r: bv16, bits: seq<bool>): bv16 {
    if bits == [] then r else BitStep(CrcBits(r, bits[..|bits| - 1]), bits[|bits| - 1])
  }

  /** The remainder after one more byte. */
  function ByteStep(r: bv16, b: bv8): bv16 {
    Step8(Xor(r, Top(b)))
  }

  function CrcFrom(r: bv16, message: seq<bv8>): bv16 {
    if message == [] then r else ByteStep(CrcFrom(r, message[..|message| - 1]), message[|message| - 1])
  }

  lemma {:induction false} CrcFromAppend(r: bv16, s: seq<bv8>, t: seq<bv8>)
    ensures CrcFrom(r, s + t) == CrcFrom(CrcFrom(r, s), t)
  {
    hide Step, Xor, ByteStep;
    if t == [] {
      assert s + t == s;
    } else {
      assert (s + t)[..|s + t| - 1] == s + t[..|t| - 1];
      CrcFromAppend(r, s, t[..|t| - 1]);
    }
  }

  /** The digits 1 to 9, for which the CRC is usually quoted. */
  const DIGITS: seq<bv8> := [0x31, 0x32, 0x33, 0x34, 0x35, 0x36, 0x37, 0x38, 0x39]

  /** It is the CRC-CCITT that begins with zero: its check value is 0x31c3, and a single bit shows the
      polynomial. */
  lemma {:induction false} CheckValue()
    ensures CrcFrom(0, DIGITS) == 0x31c3 && CrcFrom(0, [1]) == 0x1021
  {
    hide ByteStep, CrcFrom;
    DigitSteps();
    NothingYet(0);
    assert DIGITS[..0] == [] && DIGITS[..9] == DIGITS;
    forall i: nat | i < 9
      ensures CrcFrom(0, DIGITS[..i + 1]) == ByteStep(CrcFrom(0, DIGITS[..i]), DIGITS[i])
    {
      OneByteMore(0, DIGITS, i);
    }
    assert CrcFrom(0, DIGITS[..1]) == 0x2672;
    assert CrcFrom(0, DIGITS[..2]) == 0x20b5;
    assert CrcFrom(0, DIGITS[..3]) == 0x9752;
    assert CrcFrom(0, DIGITS[..4]) == 0xd789;
    assert CrcFrom(0, DIGITS[..5]) == 0x546c;
    assert CrcFrom(0, DIGITS[..6]) == 0x20e4;
    assert CrcFrom(0, DIGITS[..7]) == 0x86d6;
    assert CrcFrom(0, DIGITS[..8]) == 0x9015;
    assert CrcFrom(0, DIGITS[..9]) == 0x31c3;
    var one: seq<bv8> := [1];
    OneByteMore(0, one, 0);
    assert one[..0] == [] && one[..1] == one;
  }

  lemma {:induction false} NothingYet(r: bv16)
    ensures CrcFrom(r, []) == r
  {
  }

  lemma {:induction false} OneByteMore(r: bv16, message: seq<bv8>, i: nat)
    requires i < |message|
    ensures CrcFrom(r, message[..i + 1]) == ByteStep(CrcFrom(r, message[..i]), message[i])
  {
    hide ByteStep;
    assert message[..i + 1][..i] == message[..i];
  }

  lemma {:induction false} DigitSteps()
    ensures ByteStep(0x0, 0x31) == 0x2672
    ensures ByteStep(0x2672, 0x32) == 0x20b5
    ensures ByteStep(0x20b5, 0x33) == 0x9752
    ensures ByteStep(0x9752, 0x34) == 0xd789
    ensures ByteStep(0xd789, 0x35) == 0x546c
    ensures ByteStep(0x546c, 0x36) == 0x20e4
    ensures ByteStep(0x20e4, 0x37) == 0x86d6
    ensures ByteStep(0x86d6, 0x38) == 0x9015
    ensures ByteStep(0x9015, 0x39) == 0x31c3
    ensures ByteStep(0, 1) == 0x1021
  {
  }

  // ----- what the check finds

  /** A message with its CRC appended, high byte first, has CRC zero. */
  lemma {:induction false} AppendedCrcIsZero(r: bv16, message: seq<bv8>)
    ensures var c := CrcFrom(r, message); CrcFrom(r, message + [High(c), LowByte(c)]) == 0
  {
    hide Step, Xor, Top, High, Low, LowByte, Up, Step8;
    var c := CrcFrom(r, message);
    CrcFromAppend(r, message, [High(c), LowByte(c)]);
    assert [High(c), LowByte(c)][..1] == [High(c)] && [High(c)][..0] == [];
    assert CrcFrom(c, [High(c)]) == ByteStep(c, High(c));
    HighCancels(c);
    Step8Low(c);
    Step8Zero();
  }

  /** Different remainders stay different, whatever follows. */
  lemma {:induction false} CrcInjective(r: bv16, s: bv16, message: seq<bv8>)
    requires CrcFrom(r, message) == CrcFrom(s, message)
    ensures r == s
  {
    hide Step, Xor, Top, Step8;
    if message != [] {
      var init, last := message[..|message| - 1], message[|message| - 1];
      Step8Injective(Xor(CrcFrom(r, init), Top(last)), Xor(CrcFrom(s, init), Top(last)));
      XorSameRight(CrcFrom(r, init), CrcFrom(s, init), Top(last));
      CrcInjective(r, s, init);
    }
  }

  // ----- bits and bytes agree

  /** The bits of a byte, most significant first. */
  function ByteBits(b: bv8): seq<bool> {
    [b & 0x80 != 0, b & 0x40 != 0, b & 0x20 != 0, b & 0x10 != 0, b & 8 != 0, b & 4 != 0, b & 2 != 0, b & 1 != 0]
  }

  function Bits(message: seq<bv8>): seq<bool> {
    if message == [] then [] else Bits(message[..|message| - 1]) + ByteBits(message[|message| - 1])
  }

  lemma {:induction false} CrcBitsAppend(r: bv16, s: seq<bool>, t: seq<bool>)
    ensures CrcBits(r, s + t) == CrcBits(CrcBits(r, s), t)
  {
    hide BitStep;
    if t == [] {
      assert s + t == s;
    } else {
      assert (s + t)[..|s + t| - 1] == s + t[..|t| - 1];
      CrcBitsAppend(r, s, t[..|t| - 1]);
    }
  }

  lemma {:induction false} BitsAppend(s: seq<bv8>, t: seq<bv8>)
    ensures Bits(s + t) == Bits(s) + Bits(t)
  {
    hide ByteBits;
    if t == [] {
      assert s + t == s;
    } else {
      assert (s + t)[..|s + t| - 1] == s + t[..|t| - 1];
      BitsAppend(s, t[..|t| - 1]);
    }
  }

  function EightBits(r: bv16, s: seq<bool>): bv16
    requires |s| == 8
  {
    BitStep(BitStep(BitStep(BitStep(BitStep(BitStep(BitStep(BitStep(r, s[0]), s[1]), s[2]), s[3]), s[4]), s[5]), s[6]), s[7])
  }

  lemma {:induction false} CrcEightBits(r: bv16, s: seq<bool>)
    requires |s| == 8
    ensures CrcBits(r, s) == EightBits(r, s)
  {
    hide BitStep;
    assert s[..8] == s;
    forall k | 0 <= k < 8
      ensures CrcBits(r, s[..k + 1]) == BitStep(CrcBits(r, s[..k]), s[k])
    {
      assert s[..k + 1][..k] == s[..k];
    }
    assert CrcBits(r, s[..0]) == r;
    assert CrcBits(r, s[..0 + 1]) == BitStep(r, s[0]);
    assert CrcBits(r, s[..1 + 1]) == BitStep(CrcBits(r, s[..1]), s[1]);
    assert CrcBits(r, s[..2 + 1]) == BitStep(CrcBits(r, s[..2]), s[2]);
    assert CrcBits(r, s[..3 + 1]) == BitStep(CrcBits(r, s[..3]), s[3]);
    assert CrcBits(r, s[..4 + 1]) == BitStep(CrcBits(r, s[..4]), s[4]);
    assert CrcBits(r, s[..5 + 1]) == BitStep(CrcBits(r, s[..5]), s[5]);
    assert CrcBits(r, s[..6 + 1]) == BitStep(CrcBits(r, s[..6]), s[6]);
    assert CrcBits(r, s[..7 + 1]) == BitStep(CrcBits(r, s[..7]), s[7]);
  }

  function Shl(b: bv8): bv8 {
    b << 1
  }

  predicate TopBit(b: bv8) {
    b & 0x80 != 0
  }

  lemma {:induction false} TopParts(b: bv8)
    ensures Top(b) == Xor(if TopBit(b) then 0x8000 else 0, Top(b & 0x7f))
    ensures Step(Top(b & 0x7f)) == Top(Shl(b))
  {
  }

  lemma {:induction false} XorNothing(r: bv16)
    ensures Xor(r, 0) == r
  {
  }

  /** Of a byte that waits in the top of a word, one step takes in one bit. */
  lemma {:induction false} OneBit(r: bv16, b: bv8)
    ensures Step(Xor(r, Top(b))) == Xor(BitStep(r, TopBit(b)), Top(Shl(b)))
  {
    TopParts(b);
    XorNothing(r);
    hide Step, Xor, Top, TopBit, Shl;
    var e := if TopBit(b) then 0x8000 else 0;
    XorAssoc(r, e, Top(b & 0x7f));
    StepLinear(Xor(r, e), Top(b & 0x7f));
  }

  lemma {:induction false} BitsByShifting(b: bv8)
    ensures var b1 := Shl(b); var b2 := Shl(b1); var b3 := Shl(b2); var b4 := Shl(b3);
            var b5 := Shl(b4); var b6 := Shl(b5); var b7 := Shl(b6);
            ByteBits(b) == [TopBit(b), TopBit(b1), TopBit(b2), TopBit(b3), TopBit(b4), TopBit(b5), TopBit(b6), TopBit(b7)] &&
            Top(Shl(b7)) == 0
  {
  }

  lemma {:induction false} ByteIsBits(r: bv16, b: bv8)
    ensures ByteStep(r, b) == EightBits(r, ByteBits(b))
  {
    BitsByShifting(b);
    hide Step, Xor, Top, TopBit, Shl, BitStep, ByteBits;
    var b1 := Shl(b);
    var b2 := Shl(b1);
    var b3 := Shl(b2);
    var b4 := Shl(b3);
    var b5 := Shl(b4);
    var b6 := Shl(b5);
    var b7 := Shl(b6);
    var r1 := BitStep(r, TopBit(b));
    var r2 := BitStep(r1, TopBit(b1));
    var r3 := BitStep(r2, TopBit(b2));
    var r4 := BitStep(r3, TopBit(b3));
    var r5 := BitStep(r4, TopBit(b4));
    var r6 := BitStep(r5, TopBit(b5));
    var r7 := BitStep(r6, TopBit(b6));
    OneBit(r, b);
    OneBit(r1, b1);
    OneBit(r2, b2);
    OneBit(r3, b3);
    OneBit(r4, b4);
    OneBit(r5, b5);
    OneBit(r6, b6);
    OneBit(r7, b7);
    XorNothing(BitStep(r7, TopBit(b7)));
  }

  /** Byte by byte is bit by bit. */
  lemma {:induction false} BytesAreBits(r: bv16, message: seq<bv8>)
    ensures CrcFrom(r, message) == CrcBits(r, Bits(message))
  {
    hide ByteStep, EightBits, ByteBits, BitStep;
    if message != [] {
      var init, last := message[..|message| - 1], message[|message| - 1];
      BytesAreBits(r, init);
      var c := CrcFrom(r, init);
      CrcBitsAppend(r, Bits(init), ByteBits(last));
      assert |ByteBits(last)| == 8 by { EightInByte(last); }
      CrcEightBits(c, ByteBits(last));
      ByteIsBits(c, last);
    }
  }

  lemma {:induction false} EightInByte(b: bv8)
    ensures |ByteBits(b)| == 8
  {
  }

  // ----- bursts

  /** The lowest `n` bits. */
  function Mask(n: nat): bv16 {
    if n == 0 then 0 else Wider(Mask(n - 1))
  }

  lemma {:induction false} MaskBelowTop(n: nat)
    requires n < 16
    ensures And(Mask(n), 0x8000) == 0
  {
    assert Mask(3) == 7 && Mask(6) == 0x3f && Mask(9) == 0x1ff && Mask(12) == 0xfff && Mask(15) == 0x7fff;
  }

  lemma {:induction false} MaskOdd(n: nat, x: bv16)
    requires n > 0 && And(x, Mask(n)) == 0
    ensures And(x, 1) == 0
  {
    hide Mask, And;
    MaskNext(n);
    WiderOdd(x, Mask(n - 1));
  }

  lemma {:induction false} WiderOdd(x: bv16, m: bv16)
    requires And(x, Wider(m)) == 0
    ensures And(x, 1) == 0
  {
  }

  lemma {:induction false} MaskNext(n: nat)
    requires n > 0
    ensures Mask(n) == Wider(Mask(n - 1))
  {
  }

  lemma {:induction false} AndZero(m: bv16)
    ensures And(0, m) == 0
  {
  }

  lemma {:induction false} MaskedTop(x: bv16, m: bv16)
    requires And(m, 0x8000) == 0
    ensures And(Xor(x, 0x8000), m) == And(x, m)
  {
  }

  /** Equal low bits after a step were equal before it, one bit fewer. */
  lemma {:induction false} DiffBefore(a: bv16, b: bv16, x: bool, y: bool, n: nat)
    requires n < 16 && And(Xor(BitStep(a, x), BitStep(b, y)), Mask(n + 1)) == 0
    ensures And(Xor(a, b), Mask(n)) == 0
  {
    hide Step, Xor, And, Mask;
    MaskNext(n + 1);
    MaskBelowTop(n);
    var a', b' := if x then Xor(a, 0x8000) else a, if y then Xor(b, 0x8000) else b;
    StepLinear(a', b');
    StepEven(Xor(a', b'), Mask(n));
    DiffTop(a, b, x, y);
    MaskedTop(Xor(a, b), Mask(n));
  }

  lemma {:induction false} DiffTop(a: bv16, b: bv16, x: bool, y: bool)
    ensures Xor(if x then Xor(a, 0x8000) else a, if y then Xor(b, 0x8000) else b) ==
            if x == y then Xor(a, b) else Xor(Xor(a, b), 0x8000)
  {
    XorTwice(Xor(a, b));
    hide Xor;
    XorAssoc(a, 0x8000, b);
    XorAssoc(a, b, 0x8000);
    XorComm(b, 0x8000);
    XorAssoc(Xor(a, 0x8000), b, 0x8000);
    XorAssoc(a, 0x8000, Xor(b, 0x8000));
    XorAssoc(Xor(a, b), 0x8000, 0x8000);
  }

  lemma {:induction false} XorTwice(x: bv16)
    ensures Xor(Xor(x, 0x8000), 0x8000) == x
  {
  }

  lemma {:induction false} DiffBack(r: bv16, u: seq<bool>, v: seq<bool>, k: nat, n: nat)
    requires |u| == |v| && CrcBits(r, u) == CrcBits(r, v) && k <= |u| && n + (|u| - k) == 16
    ensures And(Xor(CrcBits(r, u[..k]), CrcBits(r, v[..k])), Mask(n)) == 0
    decreases |u| - k
  {
    hide BitStep, Xor, And, Mask;
    if k == |u| {
      assert u[..k] == u && v[..k] == v;
      XorZero(CrcBits(r, u), CrcBits(r, v));
      AndZero(Mask(n));
    } else {
      DiffBack(r, u, v, k + 1, n + 1);
      assert u[..k + 1][..k] == u[..k] && v[..k + 1][..k] == v[..k];
      DiffBefore(CrcBits(r, u[..k]), CrcBits(r, v[..k]), u[k], v[k], n);
    }
  }

  function FirstDifference(u: seq<bool>, v: seq<bool>): (i: nat)
    requires |u| == |v| && u != v
    ensures i < |u| && u[i] != v[i] && u[..i] == v[..i]
  {
    if u[0] != v[0] then 0
    else
      assert u == [u[0]] + u[1..] && v == [v[0]] + v[1..];
      1 + FirstDifference(u[1..], v[1..])
  }

  /** Two strings of sixteen bits or fewer never leave the same remainder. */
  lemma {:induction false} ShortDiffers(r: bv16, u: seq<bool>, v: seq<bool>)
    requires |u| == |v| <= 16 && u != v
    ensures CrcBits(r, u) != CrcBits(r, v)
  {
    hide BitStep, Xor, And, Mask;
    var i := FirstDifference(u, v);
    assert u[..i + 1][..i] == v[..i + 1][..i] == u[..i];
    OneBitDiffers(CrcBits(r, u[..i]), u[i], v[i]);
    if CrcBits(r, u) == CrcBits(r, v) {
      EvenAfter(r, u, v, i + 1);
    }
  }

  lemma {:induction false} EvenAfter(r: bv16, u: seq<bool>, v: seq<bool>, k: nat)
    requires |u| == |v| <= 16 && 0 < k <= |u| && CrcBits(r, u) == CrcBits(r, v)
    ensures And(Xor(CrcBits(r, u[..k]), CrcBits(r, v[..k])), 1) == 0
  {
    hide BitStep, Xor, And, Mask;
    var n := 16 - (|u| - k);
    DiffBack(r, u, v, k, n);
    MaskOdd(n, Xor(CrcBits(r, u[..k]), CrcBits(r, v[..k])));
  }

  lemma {:induction false} OneBitDiffers(c: bv16, x: bool, y: bool)
    requires x != y
    ensures And(Xor(BitStep(c, x), BitStep(c, y)), 1) == 1
  {
    hide Step, Xor, And;
    var a, b := if x then Xor(c, 0x8000) else c, if y then Xor(c, 0x8000) else c;
    StepLinear(a, b);
    DiffTop(c, c, x, y);
    XorZero(c, c);
    XorFromZero();
    OddPolynomial(a, b);
  }

  lemma {:induction false} XorFromZero()
    ensures Xor(0, 0x8000) == 0x8000
  {
  }

  /** A change confined to sixteen bits in a row changes the CRC, wherever it is. */
  lemma {:induction false} BurstDetected(r: bv16, before: seq<bool>, u: seq<bool>, v: seq<bool>, after: seq<bool>)
    requires |u| == |v| <= 16 && u != v
    ensures CrcBits(r, before + u + after) != CrcBits(r, before + v + after)
  {
    hide BitStep, CrcBits;
    CrcBitsAppend(r, before + u, after);
    CrcBitsAppend(r, before + v, after);
    CrcBitsAppend(r, before, u);
    CrcBitsAppend(r, before, v);
    ShortDiffers(CrcBits(r, before), u, v);
    if CrcBits(r, before + u + after) == CrcBits(r, before + v + after) {
      BitsInjective(CrcBits(r, before + u), CrcBits(r, before + v), after);
    }
  }

  lemma {:induction false} BitsInjective(r: bv16, s: bv16, bits: seq<bool>)
    requires CrcBits(r, bits) == CrcBits(s, bits)
    ensures r == s
  {
    hide Step, Xor;
    if bits != [] {
      var init, last := bits[..|bits| - 1], bits[|bits| - 1];
      var a, b := CrcBits(r, init), CrcBits(s, init);
      StepInjective(if last then Xor(a, 0x8000) else a, if last then Xor(b, 0x8000) else b);
      if last {
        XorSameRight(a, b, 0x8000);
      }
      BitsInjective(r, s, init);
    }
  }

  lemma {:induction false} ByteBitsInjective(a: bv8, b: bv8)
    requires ByteBits(a) == ByteBits(b)
    ensures a == b
  {
  }

  lemma {:induction false} TwoBytesInjective(u: seq<bv8>, v: seq<bv8>)
    requires |u| == |v| == 2 && Bits(u) == Bits(v)
    ensures u == v
  {
    hide Bits, ByteBits;
    TwoBytes(u);
    TwoBytes(v);
    assert ByteBits(u[0]) == Bits(u)[..8] && ByteBits(u[1]) == Bits(u)[8..];
    assert ByteBits(v[0]) == Bits(v)[..8] && ByteBits(v[1]) == Bits(v)[8..];
    ByteBitsInjective(u[0], v[0]);
    ByteBitsInjective(u[1], v[1]);
  }

  /** So a change confined to two adjacent bytes of a message is detected. */
  lemma {:induction false} TwoBytesDetected(r: bv16, before: seq<bv8>, u: seq<bv8>, v: seq<bv8>, after: seq<bv8>)
    requires |u| == |v| == 2 && u != v
    ensures CrcFrom(r, before + u + after) != CrcFrom(r, before + v + after)
  {
    hide CrcFrom, Bits, ByteBits, CrcBits;
    TwoBytes(u);
    TwoBytes(v);
    if Bits(u) == Bits(v) {
      TwoBytesInjective(u, v);
    }
    BytesAreBits(r, before + u + after);
    BytesAreBits(r, before + v + after);
    BitsAppend(before + u, after);
    BitsAppend(before + v, after);
    BitsAppend(before, u);
    BitsAppend(before, v);
    BurstDetected(r, Bits(before), Bits(u), Bits(v), Bits(after));
  }

  lemma {:induction false} TwoBytes(u: seq<bv8>)
    requires |u| == 2
    ensures Bits(u) == ByteBits(u[0]) + ByteBits(u[1])
    ensures |ByteBits(u[0])| == |ByteBits(u[1])| == 8
  {
    assert u[..1] == [u[0]];
    assert Bits([u[0]]) == Bits([]) + ByteBits(u[0]);
    assert Bits(u) == Bits([u[0]]) + ByteBits(u[1]);
  }
}
