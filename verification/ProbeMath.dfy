/** Arithmetic behind double hashing: powers of two, remainders, and the fact that an odd
    step taken modulo a power of two visits every residue. */
module ProbeMath {

  const TWO_TO_31: nat := 0x8000_0000
  const TWO_TO_32: nat := 0x1_0000_0000

  function Pow2(k: nat): (p: nat)
    ensures p >= 1
  {
    if k == 0 then 1 else 2 * Pow2(k - 1)
  }

  ghost predicate IsPow2(n: nat) {
    exists k: nat :: n == Pow2(k)
  }

  lemma {:induction false} Pow2Double(n: nat)
    requires IsPow2(n)
    ensures IsPow2(2 * n)
  {
    var k: nat :| n == Pow2(k);
    assert Pow2(k + 1) == 2 * n;
  }

  lemma {:induction false} Pow2Monotone(j: nat, k: nat)
    requires j <= k
    ensures Pow2(j) <= Pow2(k)
    decreases k
  {
    if j < k {
      Pow2Monotone(j, k - 1);
    }
  }

  lemma {:induction false} Pow2Split(j: nat, k: nat)
    ensures Pow2(j + k) == Pow2(j) * Pow2(k)
    decreases k
  {
    if k == 0 {
    } else {
      Pow2Split(j, k - 1);
      assert Pow2(j + k) == 2 * Pow2(j + (k - 1));
      MulAssoc(2, Pow2(j), Pow2(k - 1));
    }
  }

  lemma {:induction false} MulAssoc(a: int, b: int, c: int)
    ensures a * (b * c) == b * (a * c)
  {
  }

  lemma {:induction false} Pow2Of32()
    ensures Pow2(32) == TWO_TO_32
  {
    Pow2Split(8, 8);
    assert Pow2(4) == 16;
    assert Pow2(8) == 256;
    assert Pow2(16) == 65536;
    Pow2Split(16, 16);
  }

  /** A power of two not above 2^32 divides it. */
  lemma {:induction false} Pow2Divides32(n: nat) returns (q: nat)
    requires IsPow2(n) && n <= TWO_TO_32
    ensures n * q == TWO_TO_32
  {
    Pow2Of32();
    var k: nat :| n == Pow2(k);
    assert Pow2(33) == 2 * Pow2(32);
    if k > 32 {
      Pow2Monotone(33, k);
      assert false;
    }
    Pow2Split(k, 32 - k);
    q := Pow2(32 - k);
  }

  /** The remainder is the only number in range that differs by a multiple. */
  lemma {:induction false} ModUnique(a: int, m: int, q: int, r: int)
    requires m > 0 && 0 <= r < m && a == m * q + r
    ensures a % m == r
  {
    var q', r' := a / m, a % m;
    Distribute(m, q, q');
    if q > q' {
      MulAtLeast(m, q - q');
    } else if q < q' {
      MulAtLeast(m, q' - q);
      Distribute(m, q', q);
    }
  }

  lemma {:induction false} Distribute(m: int, x: int, y: int)
    ensures m * (x - y) == m * x - m * y
  {
  }

  lemma {:induction false} MulAtLeast(m: int, x: int)
    requires m > 0 && x >= 1
    ensures m * x >= m
  {
  }

  lemma {:induction false} ModAdd(x: int, y: int, m: int)
    requires m > 0
    ensures (x % m + y) % m == (x + y) % m
  {
    var q, r := (x + y) / m, (x + y) % m;
    assert x == m * (x / m) + x % m;
    assert x % m + y == m * (q - x / m) + r;
    ModUnique(x % m + y, m, q - x / m, r);
  }

  /** Reducing modulo a multiple first changes nothing. */
  lemma {:induction false} ModMod(a: int, m: int, q: int)
    requires m > 0 && q > 0 && m * q > 0
    ensures a % (m * q) % m == a % m
  {
    var b := a % (m * q);
    var p := a / (m * q);
    assert a == (m * q) * p + b;
    assert (m * q) * p == m * (q * p);
    var r := b % m;
    assert b == m * (b / m) + r;
    assert a == m * (q * p + b / m) + r;
    ModUnique(a, m, q * p + b / m, r);
  }

  /** The slot examined at probe number `n`: start `h`, step `d`, table of `size` slots. */
  function Probe(h: nat, d: nat, size: nat, n: nat): (i: nat)
    requires size > 0
    ensures i < size
  {
    (h + n * d) % size
  }

  /** The source keeps the probe position in 32 bits and masks it before each use; for a table
      of at most 2^32 slots that is the same sequence of slots. */
  lemma {:induction false} ProbeNext(h: nat, d: nat, size: nat, n: nat)
    requires IsPow2(size) && size <= TWO_TO_32
    ensures Probe(h, d, size, n + 1) == (Probe(h, d, size, n) + d) % TWO_TO_32 % size
  {
    var q := Pow2Divides32(size);
    ModMod(Probe(h, d, size, n) + d, size, q);
    ModAdd(h + n * d, d, size);
    assert h + n * d + d == h + (n + 1) * d by { assert (n + 1) * d == n * d + d; }
  }

  /** `m` times `d` is `t` up to a multiple of `p`. */
  ghost predicate Multiple(m: nat, d: nat, t: int, q: int, p: nat) {
    m * d - t == q * p
  }

  /** An odd multiplier is invertible modulo 2^k: every residue is a multiple. */
  lemma {:induction false} OddMultiples(k: nat, d: nat, t: nat) returns (m: nat, q: int)
    requires d % 2 == 1 && t < Pow2(k)
    ensures m < Pow2(k) && Multiple(m, d, t, q, Pow2(k))
  {
    hide Multiple;
    if k == 0 {
      m, q := 0, 0;
      assert Multiple(0, d, 0, 0, 1) by { MultipleOfZero(d); }
    } else {
      var p := Pow2(k - 1);
      if t < p {
        m, q := OddMultiples(k - 1, d, t);
      } else {
        m, q := OddMultiples(k - 1, d, t - p);
        LowerMultiple(m, d, t, q, p);
        q := q - 1;
      }
      if q % 2 == 0 {
        HalveMultiple(m, d, t, q, p);
        q := q / 2;
      } else {
        RaiseMultiple(m, d, t, q, p);
        m, q := m + p, (q + d) / 2;
      }
    }
  }

  lemma {:induction false} MultipleOfZero(d: nat)
    ensures Multiple(0, d, 0, 0, 1)
  {
  }

  lemma {:induction false} LowerMultiple(m: nat, d: nat, t: nat, q: int, p: nat)
    requires Multiple(m, d, t - p, q, p)
    ensures Multiple(m, d, t, q - 1, p)
  {
    Distribute(p, q, 1);
  }

  lemma {:induction false} HalveMultiple(m: nat, d: nat, t: nat, q: int, p: nat)
    requires Multiple(m, d, t, q, p) && q % 2 == 0
    ensures Multiple(m, d, t, q / 2, 2 * p)
  {
    MulAssoc(q / 2, 2, p);
    assert q == 2 * (q / 2);
  }

  lemma {:induction false} RaiseMultiple(m: nat, d: nat, t: nat, q: int, p: nat)
    requires Multiple(m, d, t, q, p) && (q + d) % 2 == 0
    ensures Multiple(m + p, d, t, (q + d) / 2, 2 * p)
  {
    calc {
      (m + p) * d - t;
      m * d + p * d - t;
      q * p + p * d;
      (q + d) * p;
    }
    HalveMultiple(m + p, d, t, q + d, p);
  }

  /** Every slot of a power-of-two table is probed within `size` steps of odd length. */
  lemma {:induction false} OddStepVisits(h: nat, d: nat, size: nat, i: nat) returns (n: nat)
    requires IsPow2(size) && d % 2 == 1 && i < size
    ensures n < size && Probe(h, d, size, n) == i
  {
    var k: nat :| size == Pow2(k);
    var t := (i - h) % size;
    var p := (i - h) / size;
    assert i - h == size * p + t;
    var q: int;
    n, q := OddMultiples(k, d, t);
    assert Multiple(n, d, t, q, size);
    assert q * size - size * p == size * (q - p);
    ModUnique(h + n * d, size, q - p, i);
  }
}
