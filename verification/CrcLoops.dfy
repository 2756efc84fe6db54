/** The loops that compute the CRC: bit by bit, and by table. */
module CrcLoops {
  import opened Division
  import opened Words16
  import opened Crc

  /** `n` steps. */
  function Steps(r: bv16, n: nat): bv16 {
    if n == 0 then r else Step(Steps(r, n - 1))
  }

  lemma {:induction false} EightSteps(r: bv16)
    ensures Steps(r, 8) == Step8(r)
  {
    hide Step, Steps;
    StepsStart(r);
    StepsNext(r, 0);
    StepsNext(r, 1);
    StepsNext(r, 2);
    StepsNext(r, 3);
    StepsNext(r, 4);
    StepsNext(r, 5);
    StepsNext(r, 6);
    StepsNext(r, 7);
  }

  /** The inner loop that crcSlow and crcInit share: modulo-2 division, a bit at a time. */
  method Divide(r: bv16) returns (remainder: bv16)
    ensures remainder == Step8(r)
  {
    hide Steps, Step8, TopSet, Xor, Left;
    remainder := r;
    StepsStart(r);
    var bit := 8;
    while bit > 0
      invariant 0 <= bit <= 8 && remainder == Steps(r, 8 - bit)
    {
      StepsNext(r, 8 - bit);
      if TopSet(remainder) {
        remainder := Xor(Left(remainder), 0x1021);
      } else {
        remainder := Left(remainder);
      }
      bit := bit - 1;
    }
    EightSteps(r);
  }

  lemma {:induction false} StepsStart(r: bv16)
    ensures Steps(r, 0) == r
  {
  }

  lemma {:induction false} StepsNext(r: bv16, n: nat)
    ensures Steps(r, n + 1) == Step(Steps(r, n))
  {
  }

  method CrcSlow(message: seq<bv8>) returns (crc: bv16)
    ensures crc == CrcFrom(0, message)
  {
    hide CrcFrom, Step8, ByteStep, Xor, Top, High, Up;
    crc := 0;
    CrcStart(0);
    var byte := 0;
    while byte < |message|
      invariant byte <= |message| && crc == CrcFrom(0, message[..byte])
    {
      CrcNext(0, message, byte);
      crc := Divide(Xor(crc, Top(message[byte])));
      byte := byte + 1;
    }
    assert message[..byte] == message;
  }

  lemma {:induction false} CrcStart(r: bv16)
    ensures CrcFrom(r, []) == r
  {
  }

  lemma {:induction false} CrcNext(r: bv16, message: seq<bv8>, k: nat)
    requires k < |message|
    ensures CrcFrom(r, message[..k + 1]) == Step8(Xor(CrcFrom(r, message[..k]), Top(message[k])))
  {
    hide Step8, Xor, Top;
    assert message[..k + 1][..k] == message[..k];
  }

  // ----- the table

  function ByteOf(k: nat): bv8
    requires k < 256
  {
    k as bv8
  }

  lemma {:induction false} ByteOfIndex(d: bv8)
    ensures d as int < 256 && ByteOf(d as int) == d
  {
  }

  /** What the table has to hold. */
  ghost predicate TableReady(table: seq<bv16>) {
    |table| == 256 && forall k :: 0 <= k < 256 ==> table[k] == Step8(Top(ByteOf(k)))
  }

  method CrcInit(crcTable: array<bv16>)
    requires crcTable.Length == 256
    modifies crcTable
    ensures TableReady(crcTable[..])
  {
    hide Step8, Top, ByteOf;
    var dividend := 0;
    while dividend < 256
      invariant 0 <= dividend <= 256
      invariant forall k :: 0 <= k < dividend ==> crcTable[k] == Step8(Top(ByteOf(k)))
    {
      crcTable[dividend] := Divide(Top(ByteOf(dividend)));
      dividend := dividend + 1;
    }
  }

  /** With the table ready, the fast form is the slow one. */
  method CrcFast(crcTable: array<bv16>, message: seq<bv8>) returns (crc: bv16)
    requires TableReady(crcTable[..])
    ensures crc == CrcFrom(0, message)
  {
    hide CrcFrom, Step8, ByteStep, Xor, Top, High, Up, ByteOf;
    crc := 0;
    CrcStart(0);
    var byte := 0;
    while byte < |message|
      invariant byte <= |message| && crc == CrcFrom(0, message[..byte])
    {
      CrcNext(0, message, byte);
      ByTable(crc, message[byte]);
      var data := message[byte] ^ High(crc);
      ByteOfIndex(data);
      crc := Xor(crcTable[data as int], Up(crc));
      byte := byte + 1;
    }
    assert message[..byte] == message;
  }

  lemma {:induction false} ByTable(r: bv16, b: bv8)
    ensures Step8(Xor(r, Top(b))) == Xor(Step8(Top(b ^ High(r))), Up(r))
  {
    hide Step8, Xor, Top, High, Low, Up;
    SplitTop(r, b);
    Step8Linear(Top(b ^ High(r)), Low(r));
    Step8Low(r);
  }
}
