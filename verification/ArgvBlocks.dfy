/** The in-place exchange of two adjacent blocks of an argument vector. */
module ArgvBlocks {

  /** `s` with the blocks [b, m) and [m, t) exchanged. */
  function Rotated(s: seq<string>, b: nat, m: nat, t: nat): (r: seq<string>)
    requires b <= m <= t <= |s|
    ensures |r| == |s|
  {
    s[..b] + s[m..t] + s[b..m] + s[t..]
  }

  /** `s` with the disjoint blocks of length `n` at `i` and at `j` exchanged. */
  function Swapped(s: seq<string>, i: nat, j: nat, n: nat): (r: seq<string>)
    requires i + n <= j && j + n <= |s|
    ensures |r| == |s|
  {
    s[..i] + s[j..j + n] + s[i + n..j] + s[i..i + n] + s[j + n..]
  }

  /** The inner loops of exchange. */
  method SwapBlocks(argv: array<string>, i: nat, j: nat, n: nat)
    requires i + n <= j && j + n <= argv.Length
    modifies argv
    ensures argv[..] == Swapped(old(argv[..]), i, j, n)
  {
    ghost var s := argv[..];
    for k := 0 to n
      invariant argv[..] == Swapped(s, i, j, k)
    {
      argv[i + k], argv[j + k] := argv[j + k], argv[i + k];
      SwapOneMore(s, i, j, k);
    }
  }

  lemma {:induction false} SwapOneMore(s: seq<string>, i: nat, j: nat, k: nat)
    requires i + k < j && j + k < |s|
    ensures Swapped(s, i, j, k + 1) == Swapped(s, i, j, k)[i + k := s[j + k]][j + k := s[i + k]]
  {
    var a, b := Swapped(s, i, j, k + 1), Swapped(s, i, j, k)[i + k := s[j + k]][j + k := s[i + k]];
    forall x | 0 <= x < |s|
      ensures a[x] == b[x]
    {
    }
  }

  lemma {:induction false} SwappedAt(s: seq<string>, i: nat, j: nat, n: nat, x: nat)
    requires i + n <= j && j + n <= |s| && x < |s|
    ensures Swapped(s, i, j, n)[x] == if i <= x < i + n then s[x - i + j] else if j <= x < j + n then s[x - j + i] else s[x]
  {
  }

  /** Where the element at `x` comes from when [b, m) and [m, t) are exchanged. */
  function Source(b: nat, m: nat, t: nat, x: nat): nat
    requires b <= m <= t
  {
    if b <= x < b + (t - m) then x - b + m else if b <= x < t then x - (t - m) else x
  }

  lemma {:induction false} RotatedAt(s: seq<string>, b: nat, m: nat, t: nat, x: nat)
    requires b <= m <= t <= |s| && x < |s|
    ensures Rotated(s, b, m, t)[x] == s[Source(b, m, t, x)]
  {
  }

  /** Swapping the shorter block with the far end of the longer one leaves a smaller exchange of
      the same kind to be done: first when the lower block is the shorter... */
  lemma {:induction false} LowerBlockPlaced(s: seq<string>, b: nat, m: nat, t: nat)
    requires b <= m <= t <= |s| && m - b < t - m
    ensures Rotated(Swapped(s, b, t - (m - b), m - b), b, m, t - (m - b)) == Rotated(s, b, m, t)
  {
    hide Rotated, Swapped;
    var n: nat := m - b;
    var r := Swapped(s, b, t - n, n);
    forall x: nat | x < |s|
      ensures Rotated(r, b, m, t - n)[x] == Rotated(s, b, m, t)[x]
    {
      RotatedAt(r, b, m, t - n, x);
      RotatedAt(s, b, m, t, x);
      SwappedAt(s, b, t - n, n, Source(b, m, t - n, x));
    }
  }

  /** ... then when the upper one is. */
  lemma {:induction false} UpperBlockPlaced(s: seq<string>, b: nat, m: nat, t: nat)
    requires b <= m <= t <= |s| && t - m <= m - b
    ensures Rotated(Swapped(s, b, m, t - m), b + (t - m), m, t) == Rotated(s, b, m, t)
  {
    hide Rotated, Swapped;
    var n: nat := t - m;
    var r := Swapped(s, b, m, n);
    forall x: nat | x < |s|
      ensures Rotated(r, b + n, m, t)[x] == Rotated(s, b, m, t)[x]
    {
      RotatedAt(r, b + n, m, t, x);
      RotatedAt(s, b, m, t, x);
      SwappedAt(s, b, m, n, Source(b + n, m, t, x));
    }
  }

  /** exchange: the block [bottom, middle) changes places with [middle, top). */
  method Exchange(argv: array<string>, first: nat, last: nat, optind: nat)
    requires first <= last <= optind <= argv.Length
    modifies argv
    ensures argv[..] == Rotated(old(argv[..]), first, last, optind)
  {
    hide Rotated, Swapped;
    ghost var s := argv[..];
    var bottom: nat, middle: nat, top: nat := first, last, optind;
    while top > middle && middle > bottom
      invariant bottom <= middle <= top <= argv.Length
      invariant Rotated(argv[..], bottom, middle, top) == Rotated(s, first, last, optind)
      decreases top - bottom
    {
      ghost var before := argv[..];
      if top - middle > middle - bottom {
        var len: nat := middle - bottom;
        LowerBlockPlaced(before, bottom, middle, top);
        SwapBlocks(argv, bottom, top - len, len);
        top := top - len;
      } else {
        var len: nat := top - middle;
        UpperBlockPlaced(before, bottom, middle, top);
        SwapBlocks(argv, bottom, middle, len);
        bottom := bottom + len;
      }
    }
    NothingToRotate(argv[..], bottom, middle, top);
  }

  lemma {:induction false} NothingToRotate(s: seq<string>, b: nat, m: nat, t: nat)
    requires b <= m <= t <= |s| && (t == m || m == b)
    ensures Rotated(s, b, m, t) == s
  {
  }
}
