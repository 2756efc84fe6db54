/** Rounding a table size up to a power of two by smearing its top bit downwards, on 64-bit
    unsigned numbers. */
module RoundUp {
  import opened ProbeMath

  const TWO_TO_63: nat := 0x8000_0000_0000_0000
  const TWO_TO_64: nat := 0x1_0000_0000_0000_0000

  /** Bitwise or. */
  function BitOr(a: nat, b: nat): nat {
    if a == 0 && b == 0 then 0
    else (if a % 2 == 1 || b % 2 == 1 then 1 else 0) + 2 * BitOr(a / 2, b / 2)
  }

  /** n >> s */
  function Shr(n: nat, s: nat): nat {
    if s == 0 then n else Shr(n / 2, s - 1)
  }

  /** n |= n >> s */
  function Smear(n: nat, s: nat): nat {
    BitOr(n, Shr(n, s))
  }

  /** round_up_2: the additions wrap at 2^64. */
  function RoundUp2(n: nat): nat
    requires n < TWO_TO_64
  {
    (SmearAll(n) + 1) % TWO_TO_64
  }

  function SmearAll(n: nat): nat {
    Smear(Smear(Smear(Smear(Smear(Smear(n, 1), 2), 4), 8), 16), 32)
  }

  /** The `m` highest of the `width` bits of `n` are set (all of them when `m >= width`). */
  ghost predicate TopBitsSet(n: nat, width: nat, m: nat) {
    n < Pow2(width) && n >= Pow2(width) - (if m < width then Pow2(width - m) else 1)
  }

  lemma {:induction false} BitOrBounds(a: nat, b: nat, width: nat)
    requires a < Pow2(width) && b < Pow2(width)
    ensures b <= BitOr(a, b) < Pow2(width)
  {
    if width > 0 {
      BitOrBounds(a / 2, b / 2, width - 1);
    }
  }

  /** High bits that the second operand cannot reach pass through unchanged. */
  lemma {:induction false} BitOrHigh(hi: nat, lo: nat, b: nat, width: nat)
    requires lo < Pow2(width) && b < Pow2(width)
    ensures BitOr(hi * Pow2(width) + lo, b) == hi * Pow2(width) + BitOr(lo, b)
    decreases width
  {
    if width == 0 {
      BitOrZero(hi);
      BitOrZero(0);
    } else {
      BitOrHigh(hi, lo / 2, b / 2, width - 1);
      MulAssoc(hi, 2, Pow2(width - 1));
      BitOrDoubled(hi * Pow2(width - 1), lo, b);
    }
  }

  lemma {:induction false} BitOrDoubled(h: nat, lo: nat, b: nat)
    requires BitOr(h + lo / 2, b / 2) == h + BitOr(lo / 2, b / 2)
    ensures BitOr(2 * h + lo, b) == 2 * h + BitOr(lo, b)
  {
    assert (2 * h + lo) / 2 == h + lo / 2 && (2 * h + lo) % 2 == lo % 2;
    BitOrStep(2 * h + lo, b);
    BitOrStep(lo, b);
  }

  lemma {:induction false} BitOrStep(a: nat, b: nat)
    ensures BitOr(a, b) == (if a % 2 == 1 || b % 2 == 1 then 1 else 0) + 2 * BitOr(a / 2, b / 2)
  {
  }

  lemma {:induction false} BitOrZero(a: nat)
    ensures BitOr(a, 0) == a
  {
    if a > 0 {
      BitOrZero(a / 2);
    }
  }

  /** One smearing step doubles the number of leading ones. */
  lemma {:induction false} SmearDoubles(n: nat, width: nat, m: nat)
    requires m > 0 && TopBitsSet(n, width, m)
    ensures TopBitsSet(Smear(n, m), width, 2 * m)
  {
    if m >= width {
      ShiftedOut(n, width, m);
      BitOrZero(n);
    } else {
      var rest := width - m;
      Pow2Split(m, rest);
      ShiftedOnes(n, rest, m);
      var lo, b := SmearParts(n, rest, m);
      BitOrBounds(lo, b, rest);
    }
  }

  /** Shifting `m` leading ones right by `m` leaves as many ones as fit. */
  lemma {:induction false} ShiftedOnes(n: nat, rest: nat, m: nat)
    requires Pow2(m) * Pow2(rest) - Pow2(rest) <= n
    ensures Shr(n, m) >= Pow2(rest) - (if m < rest then Pow2(rest - m) else 1)
  {
    var r := if m < rest then Pow2(rest - m) else 1;
    if m < rest {
      Pow2Split(m, rest - m);
      Pow2Monotone(rest - m, rest);
    } else {
      Pow2Monotone(rest, m);
    }
    assert Pow2(m) * r >= Pow2(rest);
    Distribute(Pow2(m), Pow2(rest), r);
    ShrAtLeast(n, m, Pow2(rest) - r);
  }

  /** Splitting a smearing step at the leading ones: they stay, and the rest is or-ed. */
  lemma {:induction false} SmearParts(n: nat, rest: nat, m: nat) returns (lo: nat, b: nat)
    requires Pow2(m) * Pow2(rest) - Pow2(rest) <= n < Pow2(m) * Pow2(rest)
    ensures lo < Pow2(rest) && b < Pow2(rest) && b == Shr(n, m)
    ensures Smear(n, m) == Pow2(m) * Pow2(rest) - Pow2(rest) + BitOr(lo, b)
  {
    var P, Q := Pow2(rest), Pow2(m);
    OneLess(Q, P);
    lo := n - (Q * P - P);
    ShrBelow(n, m, P);
    b := Shr(n, m);
    BitOrHigh(Q - 1, lo, b, rest);
    assert n == (Q - 1) * P + lo;
  }

  lemma {:induction false} OneLess(q: nat, p: nat)
    ensures (q - 1) * p == q * p - p
  {
  }

  lemma {:induction false} ShrBelow(n: nat, s: nat, p: nat)
    requires n < Pow2(s) * p
    ensures Shr(n, s) < p
    decreases s
  {
    if s > 0 {
      MulAssoc(p, 2, Pow2(s - 1));
      ShrBelow(n / 2, s - 1, p);
    }
  }

  lemma {:induction false} ShrAtLeast(n: nat, s: nat, p: nat)
    requires n >= Pow2(s) * p
    ensures Shr(n, s) >= p
    decreases s
  {
    if s > 0 {
      MulAssoc(p, 2, Pow2(s - 1));
      ShrAtLeast(n / 2, s - 1, p);
    }
  }

  lemma {:induction false} ShiftedOut(n: nat, width: nat, m: nat)
    requires n < Pow2(width) && m >= width
    ensures Shr(n, m) == 0
  {
    Pow2Monotone(width, m);
    ShrBelow(n, m, 1);
  }

  /** Some width fits every number. */
  lemma {:induction false} WidthExists(n: nat) returns (width: nat)
    requires n > 0
    ensures width > 0 && Pow2(width - 1) <= n < Pow2(width)
  {
    if n == 1 {
      width := 1;
    } else {
      var w := WidthExists(n / 2);
      width := w + 1;
    }
  }

  /** The result is the least power of two above the request, for every request below 2^63.
      Above that it wraps to zero. */
  lemma {:induction false} RoundUp2Exact(n: nat)
    requires n < TWO_TO_64
    ensures n < TWO_TO_63 ==> IsPow2(RoundUp2(n)) && n < RoundUp2(n) && (n > 0 ==> RoundUp2(n) <= 2 * n)
    ensures n == 0 ==> RoundUp2(n) == 1
    ensures n >= TWO_TO_63 ==> RoundUp2(n) == 0
    ensures n < TWO_TO_63 <==> (IsPow2(RoundUp2(n)) && n < RoundUp2(n))
  {
    if n == 0 {
      SmearZero();
      assert Pow2(0) == 1;
    } else {
      var w := WidthExists(n);
      RoundUp2OfWidth(n, w);
    }
  }

  /** What rounding gives, by the number of bits of the request. */
  lemma {:induction false} RoundUp2OfWidth(n: nat, w: nat)
    requires w > 0 && n < TWO_TO_64 && Pow2(w - 1) <= n < Pow2(w)
    ensures w <= 64 && RoundUp2(n) == (if w < 64 then Pow2(w) else 0)
    ensures n < TWO_TO_63 <==> w < 64
  {
    Pow2Of64();
    if w < 64 {
      Pow2Monotone(w, 63);
    } else {
      WidthOf64(n, w);
    }
    SmearAllOnes(n, w);
    WrapAdd(SmearAll(n), Pow2(w));
  }

  lemma {:induction false} WrapAdd(x: nat, p: nat)
    requires x + 1 == p <= TWO_TO_64
    ensures (x + 1) % TWO_TO_64 == if p < TWO_TO_64 then p else 0
  {
  }

  lemma {:induction false} WidthOf64(n: nat, w: nat)
    requires w >= 64 && Pow2(w - 1) <= n < Pow2(w) && n < TWO_TO_64
    ensures w == 64 && TWO_TO_63 <= n
  {
    Pow2Of64();
    if w > 64 {
      Pow2Monotone(64, w - 1);
    }
  }

  lemma {:induction false} Pow2Of64()
    ensures Pow2(64) == TWO_TO_64 && Pow2(63) == TWO_TO_63
  {
    Pow2Of32();
    Pow2Split(32, 32);
    assert Pow2(64) == 2 * Pow2(63);
  }

  lemma {:induction false} SmearZero()
    ensures forall s: nat :: Smear(0, s) == 0
  {
    forall s: nat
      ensures Shr(0, s) == 0
    {
      ShrBelow(0, s, 1);
    }
  }

  lemma {:induction false} SmearAllOnes(n: nat, w: nat)
    requires 0 < w <= 64 && Pow2(w - 1) <= n < Pow2(w)
    ensures SmearAll(n) == Pow2(w) - 1
  {
    assert TopBitsSet(n, w, 1);
    SmearDoubles(n, w, 1);
    var n2 := Smear(n, 1);
    SmearDoubles(n2, w, 2);
    var n4 := Smear(n2, 2);
    SmearDoubles(n4, w, 4);
    var n8 := Smear(n4, 4);
    SmearDoubles(n8, w, 8);
    var n16 := Smear(n8, 8);
    SmearDoubles(n16, w, 16);
    var n32 := Smear(n16, 16);
    SmearDoubles(n32, w, 32);
  }

  lemma {:induction false} RoundUpBelow31(n: nat)
    requires n < TWO_TO_31
    ensures RoundUp2(n) <= TWO_TO_31
  {
    RoundUp2Exact(n);
    Pow2Below32(RoundUp2(n));
  }

  lemma {:induction false} Pow2Below32(p: nat)
    requires IsPow2(p) && p < TWO_TO_32
    ensures p <= TWO_TO_31
  {
    Pow2Of32();
    assert Pow2(32) == 2 * Pow2(31);
    var k: nat :| p == Pow2(k);
    if k >= 32 {
      Pow2Monotone(32, k);
    } else {
      Pow2Monotone(k, 31);
    }
  }
}
