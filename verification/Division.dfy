/** One step of modulo-2 division of 16-bit words by the CRC-CCITT polynomial.  The operations on bits have
    names so that what is built on these lemmas need not look at bits. */
module Division {
  function Xor(a: bv16, b: bv16): bv16 {
    a ^ b
  }

  predicate TopSet(r: bv16) {
    r & 0x8000 != 0
  }

  function Left(r: bv16): bv16 {
    r << 1
  }

  /** The top bit goes out; if it was set, the polynomial 0x1021 is taken off. */
  function Step(r: bv16): bv16 {
    if TopSet(r) then Xor(Left(r), 0x1021) else Left(r)
  }

  lemma {:induction false} LeftXor(a: bv16, b: bv16)
    ensures Left(Xor(a, b)) == Xor(Left(a), Left(b))
  {
  }

  lemma {:induction false} TopXorSet(a: bv16, b: bv16)
    ensures TopSet(Xor(a, b)) <==> TopSet(a) != TopSet(b)
  {
  }

  lemma {:induction false} XorFirst(a: bv16, b: bv16, p: bv16)
    ensures Xor(Xor(a, p), b) == Xor(Xor(a, b), p)
  {
  }

  lemma {:induction false} XorSecond(a: bv16, b: bv16, p: bv16)
    ensures Xor(a, Xor(b, p)) == Xor(Xor(a, b), p)
  {
  }

  lemma {:induction false} XorBoth(a: bv16, b: bv16)
    ensures Xor(Xor(a, 0x1021), Xor(b, 0x1021)) == Xor(a, b)
  {
  }

  lemma {:induction false} StepLinear(a: bv16, b: bv16)
    ensures Step(Xor(a, b)) == Xor(Step(a), Step(b))
  {
    hide Xor, Left, TopSet;
    LeftXor(a, b);
    TopXorSet(a, b);
    XorFirst(Left(a), Left(b), 0x1021);
    XorSecond(Left(a), Left(b), 0x1021);
    XorBoth(Left(a), Left(b));
  }

  lemma {:induction false} StepKernel(x: bv16)
    requires Step(x) == 0
    ensures x == 0
  {
  }

  lemma {:induction false} XorZero(a: bv16, b: bv16)
    ensures Xor(a, b) == 0 <==> a == b
  {
  }

  /** No two words step to the same one. */
  lemma {:induction false} StepInjective(a: bv16, b: bv16)
    requires Step(a) == Step(b)
    ensures a == b
  {
    hide Step, Xor;
    StepLinear(a, b);
    XorZero(Step(a), Step(b));
    StepKernel(Xor(a, b));
    XorZero(a, b);
  }
}

/** The words the division works on, put together from bytes. */
module Words16 {
  import opened Division

  function High(r: bv16): bv8 {
    (r >> 8) as bv8
  }

  function Low(r: bv16): bv16 {
    r & 0xff
  }

  function LowByte(r: bv16): bv8 {
    (r & 0xff) as bv8
  }

  function Top(b: bv8): bv16 {
    (b as bv16) << 8
  }

  function Up(r: bv16): bv16 {
    r << 8
  }

  function Step8(r: bv16): bv16 {
    Step(Step(Step(Step(Step(Step(Step(Step(r))))))))
  }

  /** The low byte alone only moves up. */
  lemma {:induction false} Step8Low(r: bv16)
    ensures Step8(Low(r)) == Up(r)
  {
  }

  lemma {:induction false} Step8Linear(a: bv16, b: bv16)
    ensures Step8(Xor(a, b)) == Xor(Step8(a), Step8(b))
  {
    hide Step, Xor;
    StepTwice(a, b);
    StepTwice(Step(Step(a)), Step(Step(b)));
    var a4, b4 := Step(Step(Step(Step(a)))), Step(Step(Step(Step(b))));
    StepTwice(a4, b4);
    StepTwice(Step(Step(a4)), Step(Step(b4)));
  }

  lemma {:induction false} StepTwice(a: bv16, b: bv16)
    ensures Step(Step(Xor(a, b))) == Xor(Step(Step(a)), Step(Step(b)))
  {
    hide Step, Xor;
    StepLinear(a, b);
    StepLinear(Step(a), Step(b));
  }

  lemma {:induction false} Step8Injective(a: bv16, b: bv16)
    requires Step8(a) == Step8(b)
    ensures a == b
  {
    hide Step;
    var a4, b4 := Step(Step(Step(Step(a)))), Step(Step(Step(Step(b))));
    StepInjective(Step(Step(Step(a4))), Step(Step(Step(b4))));
    StepInjective(Step(Step(a4)), Step(Step(b4)));
    StepInjective(Step(a4), Step(b4));
    StepInjective(a4, b4);
    StepInjective(Step(Step(Step(a))), Step(Step(Step(b))));
    StepInjective(Step(Step(a)), Step(Step(b)));
    StepInjective(Step(a), Step(b));
    StepInjective(a, b);
  }

  /** A byte that comes into the top of a word: the table index, and the byte that stays. */
  lemma {:induction false} SplitTop(r: bv16, b: bv8)
    ensures Xor(r, Top(b)) == Xor(Top(b ^ High(r)), Low(r))
  {
    hide *;
    Halves(r);
    XorAssoc(Top(b), Top(High(r)), Low(r));
    XorComm(Top(b), Xor(Top(High(r)), Low(r)));
    TopXor(b, High(r));
  }

  lemma {:induction false} Halves(r: bv16)
    ensures r == Xor(Top(High(r)), Low(r))
  {
  }

  lemma {:induction false} TopXor(a: bv8, b: bv8)
    ensures Top(a ^ b) == Xor(Top(a), Top(b))
  {
  }

  lemma {:induction false} XorAssoc(x: bv16, y: bv16, z: bv16)
    ensures Xor(Xor(x, y), z) == Xor(x, Xor(y, z))
  {
  }

  lemma {:induction false} XorComm(x: bv16, y: bv16)
    ensures Xor(x, y) == Xor(y, x)
  {
  }

  lemma {:induction false} HighCancels(r: bv16)
    ensures Xor(r, Top(High(r))) == Low(r)
    ensures Xor(Up(r), Top(LowByte(r))) == 0
  {
  }

  lemma {:induction false} Step8Zero()
    ensures Step8(0) == 0
  {
  }

  lemma {:induction false} XorSameRight(a: bv16, b: bv16, r: bv16)
    requires Xor(a, r) == Xor(b, r)
    ensures a == b
  {
  }

  // ----- differences that a few steps cannot lose

  function And(a: bv16, b: bv16): bv16 {
    a & b
  }

  /** A mask of one bit more. */
  function Wider(m: bv16): bv16 {
    (m << 1) | 1
  }

  lemma {:induction false} StepEven(r: bv16, m: bv16)
    requires And(m, 0x8000) == 0 && And(Step(r), Wider(m)) == 0
    ensures And(r, m) == 0
  {
  }

  lemma {:induction false} OddPolynomial(a: bv16, b: bv16)
    requires Xor(a, b) == 0x8000
    ensures And(Step(Xor(a, b)), 1) == 1
  {
  }
}
