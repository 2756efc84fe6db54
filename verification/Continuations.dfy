/** Backslash-newlines in a line, collapsed in the buffer that holds it. */
module Continuations {
  import opened Tokens

  // ----- what the result is, from the text alone

  /** Where the first line ends. */
  function LineEnd(t: string): (i: nat)
    ensures i <= |t| && '\n' !in t[..i] && (i < |t| ==> t[i] == '\n')
  {
    if t == "" || t[0] == '\n' then 0 else 1 + LineEnd(t[1..])
  }

  /** How many backslashes a text ends with. */
  function Tail(t: string): (n: nat)
    ensures n <= |t| && (forall k :: |t| - n <= k < |t| ==> t[k] == '\\') && (n < |t| ==> t[|t| - n - 1] != '\\')
  {
    if t == "" || t[|t| - 1] != '\\' then 0 else 1 + Tail(t[..|t| - 1])
  }

  function Backslashes(n: nat): (b: string)
    ensures |b| == n && forall k :: 0 <= k < n ==> b[k] == '\\'
  {
    seq(n, _ => '\\')
  }

  function WithoutTrailingBlanks(t: string): (r: string)
    ensures r <= t && (r != "" ==> !IsBlank(r[|r| - 1]))
  {
    if t != "" && IsBlank(t[|t| - 1]) then WithoutTrailingBlanks(t[..|t| - 1]) else t
  }

  /** What is written when a line ends with `n` backslashes: half of them, and a newline; or, if
      `n` is odd, one space for it and for the blanks before it. */
  function LineBreak(done: string, n: nat): string {
    var kept := done + Backslashes(n / 2);
    if n % 2 == 0 then kept + "\n" else WithoutTrailingBlanks(kept) + " "
  }

  /** Where the next line begins; of a line that is joined the leading blanks are dropped. */
  function NextLine(t: string, i: nat, n: nat): (r: string)
    requires i < |t|
    ensures |r| < |t|
  {
    if n % 2 == 0 then t[i + 1..] else SkipBlanks(t[i + 1..])
  }

  /** The text in `t`, collapsed, behind what is written already. */
  function Joined(done: string, t: string): string
    decreases |t|
  {
    var i := LineEnd(t);
    if i == |t| then done + t
    else
      var n := Tail(t[..i]);
      Joined(LineBreak(done + t[..i - n], n), NextLine(t, i, n))
  }

  function Collapsed(s: string): string {
    Joined("", s)
  }

  lemma {:induction false} LineEndIs(t: string, i: nat)
    requires i <= |t| && '\n' !in t[..i] && (i < |t| ==> t[i] == '\n')
    ensures LineEnd(t) == i
  {
    var j := LineEnd(t);
    assert j < |t| ==> t[j] == '\n';
    assert forall k :: 0 <= k < i ==> t[k] == t[..i][k];
    assert forall k :: 0 <= k < j ==> t[k] == t[..j][k];
  }

  lemma {:induction false} TailIs(t: string, n: nat)
    requires n <= |t| && (forall k :: |t| - n <= k < |t| ==> t[k] == '\\') && (n < |t| ==> t[|t| - n - 1] != '\\')
    ensures Tail(t) == n
  {
    var m := Tail(t);
    assert m < |t| ==> t[|t| - m - 1] != '\\';
  }

  /** Text in front of the backslashes that end a line is copied. */
  lemma {:induction false} Copied(done: string, t: string, k: nat)
    requires k <= LineEnd(t) && (LineEnd(t) < |t| ==> k + Tail(t[..LineEnd(t)]) <= LineEnd(t))
    ensures Joined(done, t) == Joined(done + t[..k], t[k..])
  {
    hide *;
    SuffixLine(t, k);
    if LineEnd(t) == |t| {
      JoinedLast(done, t);
      JoinedLast(done + t[..k], t[k..]);
      assert done + t == done + t[..k] + t[k..];
    } else {
      CopiedBreak(done, t, k, LineEnd(t), Tail(t[..LineEnd(t)]));
    }
  }

  lemma {:induction false} CopiedBreak(done: string, t: string, k: nat, i: nat, n: nat)
    requires i == LineEnd(t) < |t| && n == Tail(t[..i]) && k + n <= i
    ensures Joined(done, t) == Joined(done + t[..k], t[k..])
  {
    hide *;
    var u := t[k..];
    SuffixLine(t, k);
    SuffixTail(t[..i], u[..i - k], k, n);
    JoinedAt(done, t, i, n);
    JoinedAt(done + t[..k], u, i - k, n);
    Rejoined(done, t, k, i - n);
    NextLineSuffix(t, k, i, n);
  }

  lemma {:induction false} Rejoined(done: string, t: string, k: nat, m: nat)
    requires k <= m <= |t|
    ensures done + t[..k] + t[k..][..m - k] == done + t[..m]
  {
    assert t[k..][..m - k] == t[k..m] && t[..k] + t[k..m] == t[..m];
    assert done + t[..k] + t[k..m] == done + (t[..k] + t[k..m]);
  }

  lemma {:induction false} SuffixLine(t: string, k: nat)
    requires k <= LineEnd(t)
    ensures LineEnd(t[k..]) == LineEnd(t) - k && t[k..][..LineEnd(t) - k] == t[..LineEnd(t)][k..]
  {
    var i := LineEnd(t);
    hide LineEnd;
    assert t[k..][..i - k] == t[..i][k..];
    assert forall c :: c in t[..i][k..] ==> c in t[..i];
    LineEndIs(t[k..], i - k);
  }

  lemma {:induction false} NextLineSuffix(t: string, k: nat, i: nat, n: nat)
    requires k <= i < |t|
    ensures NextLine(t[k..], i - k, n) == NextLine(t, i, n)
  {
    assert t[k..][i - k + 1..] == t[i + 1..];
  }

  lemma {:induction false} SuffixTail(t: string, u: string, k: nat, n: nat)
    requires k <= |t| && u == t[k..] && n == Tail(t) && k + n <= |t|
    ensures Tail(u) == n
  {
    TailIs(u, n);
  }

  lemma {:induction false} JoinedLast(done: string, t: string)
    requires LineEnd(t) == |t|
    ensures Joined(done, t) == done + t
  {
  }

  lemma {:induction false} JoinedAt(done: string, t: string, i: nat, n: nat)
    requires i == LineEnd(t) < |t| && n == Tail(t[..i])
    ensures Joined(done, t) == Joined(LineBreak(done + t[..i - n], n), NextLine(t, i, n))
  {
    hide LineBreak, NextLine;
  }

  /** A newline behind `n` backslashes. */
  lemma {:induction false} AtNewline(done: string, t: string, n: nat)
    requires n < |t| && t[n] == '\n' && forall k :: 0 <= k < n ==> t[k] == '\\'
    ensures Joined(done, t) == Joined(LineBreak(done, n), NextLine(t, n, n))
  {
    hide Joined, LineBreak, NextLine;
    LineEndIs(t, n);
    TailIs(t[..n], n);
    JoinedAt(done, t, n, n);
    assert done + t[..0] == done;
  }

  lemma {:induction false} BreakFits(done: string, n: nat)
    ensures |LineBreak(done, n)| <= |done| + n + 1
  {
  }

  /** The result is never longer than the text. */
  lemma {:induction false} NeverLonger(done: string, t: string)
    ensures |Joined(done, t)| <= |done| + |t|
    decreases |t|
  {
    hide LineBreak;
    var i := LineEnd(t);
    if i < |t| {
      var n := Tail(t[..i]);
      BreakFits(done + t[..i - n], n);
      NeverLonger(LineBreak(done + t[..i - n], n), NextLine(t, i, n));
      NextLineFits(t, i, n);
    }
  }

  lemma {:induction false} NextLineFits(t: string, i: nat, n: nat)
    requires i < |t|
    ensures |NextLine(t, i, n)| <= |t| - i - 1
  {
  }

  /** Lines that do not end with a backslash stay as they are. */
  lemma {:induction false} NothingToJoin(done: string, t: string)
    requires forall k :: 0 <= k < |t| - 1 && t[k] == '\\' ==> t[k + 1] != '\n'
    ensures Joined(done, t) == done + t
    decreases |t|
  {
    hide Joined;
    var i := LineEnd(t);
    if i == |t| {
      JoinedLast(done, t);
    } else {
      TailIs(t[..i], 0);
      JoinedAt(done, t, i, 0);
      PlainBreak(done + t[..i], t, i);
      NothingToJoin(done + t[..i] + "\n", t[i + 1..]);
      assert done + t[..i] + "\n" + t[i + 1..] == done + t;
    }
  }

  lemma {:induction false} PlainBreak(done: string, t: string, i: nat)
    requires i < |t|
    ensures LineBreak(done, 0) == done + "\n" && NextLine(t, i, 0) == t[i + 1..]
  {
    assert done + Backslashes(0) == done;
  }

  predicate AllBlank(t: string) {
    forall k :: 0 <= k < |t| ==> IsBlank(t[k])
  }

  /** The text of a line in front of the backslashes it ends with. */
  predicate LineText(t: string) {
    '\n' !in t && (t != "" ==> t[|t| - 1] != '\\')
  }

  /** A line that ends with an even number of backslashes keeps half of them and its newline. */
  lemma {:induction false} LineKept(done: string, a: string, m: nat, b: string)
    requires LineText(a)
    ensures Joined(done, a + Backslashes(2 * m) + "\n" + b) == Joined(done + a + Backslashes(m) + "\n", b)
  {
    hide Joined, NextLine, Tail, LineEnd;
    var t := a + Backslashes(2 * m) + "\n" + b;
    LineAt(done, a, 2 * m, b);
    NextLineIs(t, |a| + 2 * m, 2 * m, b);
    assert 2 * m / 2 == m;
  }

  /** A line that ends with an odd number of them keeps half of the others, and is joined to the next one
      by one space; without others, it stands for the blanks before it, and in any case for those behind. */
  lemma {:induction false} LineJoined(done: string, a: string, blanks: string, m: nat, more: string, b: string)
    requires a != "" && LineText(a) && !IsBlank(a[|a| - 1]) && AllBlank(blanks) && AllBlank(more) && (b != "" ==> !IsBlank(b[0]))
    ensures Joined(done, a + blanks + Backslashes(2 * m + 1) + "\n" + (more + b)) ==
            Joined((if m == 0 then done + a else done + (a + blanks) + Backslashes(m)) + " ", b)
  {
    hide Joined, NextLine, Tail, LineEnd, WithoutTrailingBlanks, LineBreak, Backslashes;
    var n := 2 * m + 1;
    var t := a + blanks + Backslashes(n) + "\n" + (more + b);
    TextWithBlanks(a, blanks);
    LineAt(done, a + blanks, n, more + b);
    NextLineIs(t, |a + blanks| + n, n, more + b);
    BlanksSkipped(more, b);
    OddBreak(done, a, blanks, m);
  }

  lemma {:induction false} TextWithBlanks(a: string, blanks: string)
    requires LineText(a) && AllBlank(blanks)
    ensures LineText(a + blanks)
  {
    assert '\n' !in blanks;
  }

  lemma {:induction false} LineAt(done: string, a: string, n: nat, b: string)
    requires LineText(a)
    ensures var t := a + Backslashes(n) + "\n" + b;
            |a| + n < |t| && Joined(done, t) == Joined(LineBreak(done + a, n), NextLine(t, |a| + n, n))
  {
    hide Joined, LineBreak, NextLine;
    var t := a + Backslashes(n) + "\n" + b;
    var i := |a| + n;
    assert t[..i] == a + Backslashes(n);
    assert '\n' !in Backslashes(n);
    LineEndIs(t, i);
    TailIs(t[..i], n);
    JoinedAt(done, t, i, n);
    assert t[..i - n] == a;
  }

  lemma {:induction false} NextLineIs(t: string, i: nat, n: nat, b: string)
    requires i < |t| && t[i + 1..] == b
    ensures NextLine(t, i, n) == if n % 2 == 0 then b else SkipBlanks(b)
  {
  }

  lemma {:induction false} BlanksSkipped(more: string, b: string)
    requires AllBlank(more) && (b != "" ==> !IsBlank(b[0]))
    ensures SkipBlanks(more + b) == b
  {
    var j := BlankEnd(more + b, 0);
    assert forall k :: 0 <= k < |more| ==> IsBlank((more + b)[k]);
    assert b != "" ==> (more + b)[|more|] == b[0];
  }

  lemma {:induction false} OddBreak(done: string, a: string, blanks: string, m: nat)
    requires a != "" && !IsBlank(a[|a| - 1]) && AllBlank(blanks)
    ensures LineBreak(done + (a + blanks), 2 * m + 1) ==
            (if m == 0 then done + a else done + (a + blanks) + Backslashes(m)) + " "
  {
    var kept := done + (a + blanks) + Backslashes(m);
    assert (2 * m + 1) / 2 == m;
    if m == 0 {
      assert kept == done + a + blanks;
      TrailingBlanks(done + a, blanks);
    } else {
      assert kept[|kept| - 1] == '\\';
    }
  }

  /** Only spaces and tabs are dropped. */
  lemma {:induction false} DroppedIsBlank(t: string)
    ensures forall k :: |WithoutTrailingBlanks(t)| <= k < |t| ==> t[k] in " \t"
  {
    if t != "" && IsBlank(t[|t| - 1]) {
      DroppedIsBlank(t[..|t| - 1]);
    }
  }

  lemma {:induction false} TrailingBlanks(t: string, blanks: string)
    requires t != "" && !IsBlank(t[|t| - 1]) && AllBlank(blanks)
    ensures WithoutTrailingBlanks(t + blanks) == t
  {
    DroppedIsBlank(t + blanks);
    hide WithoutTrailingBlanks;
    var r := WithoutTrailingBlanks(t + blanks);
    assert (t + blanks)[|t| - 1] == t[|t| - 1];
    assert forall k :: 0 <= k < |blanks| ==> (t + blanks)[|t| + k] == blanks[k];
    assert |r| == |t|;
  }

  // ----- the same in place

  /** The buffer holds a string, with its null. */
  predicate Holds(buf: seq<char>, s: string) {
    |s| < |buf| && buf[..|s|] == s && buf[|s|] == '\0' && '\0' !in s
  }

  /** The buffer begins with `done`, and from `i` on it is still as it was. */
  predicate Written(buf: seq<char>, was: seq<char>, done: string, i: nat) {
    |done| <= i <= |was| == |buf| && buf[..|done|] == done && buf[i..] == was[i..]
  }

  /** The reader stands on a newline behind `n` backslashes; the writer is not in them. */
  ghost predicate AtBreak(buf: seq<char>, was: seq<char>, s: string, done: string, in_: nat, n: nat) {
    Holds(was, s) && in_ < |s| && s[in_] == '\n' && n <= in_ && Written(buf, was, done, in_ - n) &&
    (forall k :: in_ - n <= k < in_ ==> s[k] == '\\') && (in_ - n > 0 ==> buf[in_ - n - 1] != '\\') &&
    Joined(done, s[in_ - n..]) == Collapsed(s)
  }

  /** The reader copies; a run of backslashes begins where it stands, if at all. */
  ghost predicate Copying(buf: seq<char>, was: seq<char>, s: string, done: string, in_: nat) {
    Holds(was, s) && in_ <= |s| && Written(buf, was, done, in_) &&
    (0 < in_ < |s| && s[in_] == '\\' ==> buf[in_ - 1] != '\\') &&
    Joined(done, s[in_..]) == Collapsed(s)
  }

  /** Two buffers that differ in one place at most. */
  ghost predicate OneChanged(before: seq<char>, buf: seq<char>, at: int) {
    |buf| == |before| && forall k :: 0 <= k < |buf| && k != at ==> buf[k] == before[k]
  }

  /** Writes one character, no further than the reader. */
  method Put(line: array<char>, ghost was: seq<char>, ghost done: string, i: nat, out: nat, c: char) returns (out': nat)
    requires Written(line[..], was, done, i) && out == |done| < i
    modifies line
    ensures Written(line[..], was, done + [c], i) && out' == |done| + 1
    ensures line[out] == c && OneChanged(old(line[..]), line[..], out)
  {
    line[out] := c;
    out' := out + 1;
    assert line[..out'] == line[..out] + [c];
  }

  lemma {:induction false} StillWritten(buf: seq<char>, was: seq<char>, done: string, i: nat, done': string, i': nat)
    requires Written(buf, was, done, i) && done' <= done && i <= i' <= |buf|
    ensures Written(buf, was, done', i')
  {
    assert buf[i'..] == buf[i..][i' - i..];
  }

  /** Counts the backslashes before the newline, going back from it: half of them are to be
      written, and an odd one quotes the newline.  The scan never gets to the writer. */
  method CountBackslashes(line: array<char>, in_: nat, out: nat, ghost n: nat) returns (bsWrite: nat, backslash: bool)
    requires n <= in_ < line.Length && out <= in_ - n
    requires (forall k :: in_ - n <= k < in_ ==> line[k] == '\\') && (in_ - n > 0 ==> line[in_ - n - 1] != '\\')
    ensures bsWrite == n / 2 && backslash == (n % 2 == 1)
  {
    backslash, bsWrite := false, 0;
    var p := in_ as int - 1;
    while p >= 0 && line[p] == '\\'
      invariant in_ - n - 1 <= p < in_
      invariant 2 * bsWrite + (if backslash then 1 else 0) == in_ - 1 - p
      decreases p + 1
    {
      if backslash {
        bsWrite := bsWrite + 1;
      }
      backslash := !backslash;
      if in_ == out - 1 {
        assert false;  // abort
      }
      p := p - 1;
    }
  }

  method PutBackslashes(line: array<char>, ghost was: seq<char>, ghost done: string, i: nat, out: nat, n: nat) returns (out': nat)
    requires Written(line[..], was, done, i) && out == |done| && out + n <= i
    modifies line
    ensures Written(line[..], was, done + Backslashes(n), i) && out' == out + n
  {
    hide Written;
    out' := out;
    var bsWrite := n;
    assert done + Backslashes(0) == done;
    while bsWrite > 0
      invariant 0 <= bsWrite <= n && out' == out + n - bsWrite
      invariant Written(line[..], was, done + Backslashes(n - bsWrite), i)
    {
      bsWrite := bsWrite - 1;
      out' := Put(line, was, done + Backslashes(n - bsWrite - 1), i, out', '\\');
      assert done + Backslashes(n - bsWrite - 1) + ['\\'] == done + Backslashes(n - bsWrite);
    }
  }

  /** Drops the blanks at the end of what is written. */
  method DropBlanks(line: array<char>, ghost done: string, out: nat) returns (out': nat)
    requires out == |done| <= line.Length && line[..out] == done
    ensures out' == |WithoutTrailingBlanks(done)|
  {
    out' := out;
    assert done[..out] == done;
    while out' > 0 && IsBlank(line[out' - 1])
      invariant out' <= out && WithoutTrailingBlanks(done[..out']) == WithoutTrailingBlanks(done)
    {
      assert done[..out'][..out' - 1] == done[..out' - 1];
      out' := out' - 1;
    }
    assert out' > 0 ==> done[..out'][out' - 1] == line[out' - 1];
  }

  /** Passes over blanks that are still to be read. */
  method PassBlanks(line: array<char>, ghost s: string, i: nat) returns (j: nat)
    requires i <= |s| < line.Length && line[i..|s|] == s[i..] && line[|s|] == '\0'
    ensures j == BlankEnd(s, i)
  {
    j := i;
    while IsBlank(line[j])
      invariant i <= j <= |s| && BlankEnd(s, j) == BlankEnd(s, i)
      decreases |s| - j
    {
      assert j < |s| ==> line[j] == line[i..|s|][j - i];
      j := j + 1;
    }
    assert j < |s| ==> line[j] == line[i..|s|][j - i];
  }

  /** Writes the backslashes that are kept at a newline. */
  method PutKept(line: array<char>, ghost was: seq<char>, ghost done: string, from: nat, to: nat, ghost n: nat) returns (out: nat, backslash: bool)
    requires n <= from < line.Length && Written(line[..], was, done, from - n) && to == |done|
    requires (forall k :: from - n <= k < from ==> line[k] == '\\') && (from - n > 0 ==> line[from - n - 1] != '\\')
    modifies line
    ensures Written(line[..], was, done + Backslashes(n / 2), from) && out == |done + Backslashes(n / 2)| && backslash == (n % 2 == 1)
  {
    hide *;
    WrittenSize(line[..], was, done, from - n);
    var bsWrite;
    bsWrite, backslash := CountBackslashes(line, from, to, n);
    StillWritten(line[..], was, done, from - n, done, from);
    out := PutBackslashes(line, was, done, from, to, bsWrite);
  }

  /** One space for the newline, the blanks before it and the blanks after it. */
  method JoinLines(line: array<char>, ghost s: string, ghost was: seq<char>, ghost kept: string, from: nat, to: nat) returns (in_: nat, out: nat)
    requires Holds(was, s) && from < |s| && Written(line[..], was, kept, from) && to == |kept|
    modifies line
    ensures in_ == BlankEnd(s, from + 1) && out == |WithoutTrailingBlanks(kept)| + 1
    ensures Written(line[..], was, WithoutTrailingBlanks(kept) + [' '], from + 1)
    ensures OneChanged(old(line[..]), line[..], out - 1)
  {
    hide *;
    UnreadIs(line[..], was, s, kept, from);
    WrittenSize(line[..], was, kept, from);
    in_ := PassBlanks(line, s, from + 1);
    out := DropBlanks(line, kept, to);
    PrefixOf(kept);
    StillWritten(line[..], was, kept, from, WithoutTrailingBlanks(kept), from + 1);
    out := Put(line, was, WithoutTrailingBlanks(kept), from + 1, out, ' ');
  }

  /** Writes the break of a line at a newline, and passes over it. */
  method BreakLine(line: array<char>, ghost s: string, ghost was: seq<char>, ghost done: string, from: nat, to: nat, ghost n: nat)
    returns (in_: nat, out: nat, ghost done': string)
    requires AtBreak(line[..], was, s, done, from, n) && to == |done|
    modifies line
    ensures Copying(line[..], was, s, done', in_) && out == |done'| && from < in_
  {
    hide *;
    BreakSeen(line[..], was, s, done, from, n);
    var backslash;
    out, backslash := PutKept(line, was, done, from, to, n);
    ghost var kept := done + Backslashes(n / 2);
    LineBreakIs(done, n);
    assert SameFrom(line[..], s, from) by { UnreadIs(line[..], was, s, kept, from); }
    assert |kept| <= from by { WrittenSize(line[..], was, kept, from); }
    ghost var before := line[..];
    in_ := from + 1;
    if backslash {
      in_, out := JoinLines(line, s, was, kept, from, out);
    } else {
      StillWritten(line[..], was, kept, from, kept, from + 1);
      out := Put(line, was, kept, from + 1, out, '\n');
    }
    done' := LineBreak(done, n);
    Resume(before, line[..], was, s, done, done', from, n, in_);
  }

  lemma {:induction false} WrittenSize(buf: seq<char>, was: seq<char>, done: string, i: nat)
    requires Written(buf, was, done, i)
    ensures |done| <= i <= |was| == |buf| && buf[..|done|] == done
  {
  }

  lemma {:induction false} PrefixOf(t: string)
    ensures WithoutTrailingBlanks(t) <= t
  {
  }

  /** What is unread is the text. */
  ghost predicate SameFrom(buf: seq<char>, s: string, i: nat) {
    |s| <= |buf| && forall k :: i <= k < |s| ==> buf[k] == s[k]
  }

  lemma {:induction false} UnreadIs(buf: seq<char>, was: seq<char>, s: string, done: string, i: nat)
    requires Holds(was, s) && Written(buf, was, done, i) && i < |s|
    ensures |s| < |buf| && buf[i + 1..|s|] == s[i + 1..] && buf[|s|] == '\0'
    ensures SameFrom(buf, s, i)
  {
    forall k | i <= k < |buf|
      ensures buf[k] == was[k]
    {
      assert buf[k] == buf[i..][k - i] == was[i..][k - i];
    }
    assert was[..|s|] == s;
    assert forall k :: 0 <= k < |s| ==> was[k] == was[..|s|][k];
  }

  /** Behind the break the reader can copy. */
  lemma {:induction false} Resume(before: seq<char>, buf: seq<char>, was: seq<char>, s: string, done: string, done': string, from: nat, n: nat, in_: nat)
    requires Holds(was, s) && n <= from < |s| && s[from] == '\n' && |before| == |buf| > |s|
    requires in_ == if n % 2 == 0 then from + 1 else BlankEnd(s, from + 1)
    requires SameFrom(before, s, from) && Written(buf, was, done', from + 1)
    requires done' == LineBreak(done, n) && OneChanged(before, buf, |done'| - 1)
    requires Joined(LineBreak(done, n), NextLine(s[from - n..], n, n)) == Collapsed(s)
    ensures Copying(buf, was, s, done', in_)
  {
    hide *;
    NextLineAt(s, from, n);
    StillWritten(buf, was, done', from + 1, done', in_);
    WrittenSize(buf, was, done', from + 1);
    BreakChar(done, n);
    CharBefore(before, buf, s, done', from, in_);
    NowCopying(buf, was, s, done', in_);
  }

  lemma {:induction false} CharBefore(before: seq<char>, buf: seq<char>, s: string, done: string, from: nat, in_: nat)
    requires from < in_ <= |s| < |buf| == |before| && |done| <= from + 1 && buf[..|done|] == done
    requires done != "" && done[|done| - 1] != '\\' && SameFrom(before, s, from) && forall k :: from <= k < in_ ==> s[k] != '\\'
    requires OneChanged(before, buf, |done| - 1)
    ensures buf[in_ - 1] != '\\'
  {
    assert buf[|done| - 1] == buf[..|done|][|done| - 1];
  }

  lemma {:induction false} NowCopying(buf: seq<char>, was: seq<char>, s: string, done: string, in_: nat)
    requires Holds(was, s) && 0 < in_ <= |s| && Written(buf, was, done, in_) && in_ - 1 < |buf| && buf[in_ - 1] != '\\'
    requires Joined(done, s[in_..]) == Collapsed(s)
    ensures Copying(buf, was, s, done, in_)
  {
    hide Joined, Collapsed, Holds;
  }

  lemma {:induction false} LineBreakIs(done: string, n: nat)
    ensures LineBreak(done, n) == if n % 2 == 0 then done + Backslashes(n / 2) + ['\n']
                                  else WithoutTrailingBlanks(done + Backslashes(n / 2)) + [' ']
  {
  }

  lemma {:induction false} BreakChar(done: string, n: nat)
    ensures LineBreak(done, n) != "" && LineBreak(done, n)[|LineBreak(done, n)| - 1] != '\\'
  {
  }

  lemma {:induction false} NoBackslashSkipped(s: string, from: nat)
    requires from < |s|
    ensures forall k :: from < k < BlankEnd(s, from + 1) ==> s[k] != '\\'
  {
    assert forall k :: from + 1 <= k < BlankEnd(s, from + 1) ==> IsBlank(s[k]);
  }

  lemma {:induction false} NextLineAt(s: string, from: nat, n: nat)
    requires n <= from < |s|
    ensures NextLine(s[from - n..], n, n) == if n % 2 == 0 then s[from + 1..] else s[BlankEnd(s, from + 1)..]
    ensures forall k :: from < k < BlankEnd(s, from + 1) ==> s[k] != '\\'
  {
    assert s[from - n..][n + 1..] == s[from + 1..];
    NoBackslashSkipped(s, from);
    BlankEndOfSuffix(s, from + 1, 0);
    hide BlankEnd;
    assert s[from + 1..][BlankEnd(s[from + 1..], 0)..] == s[BlankEnd(s, from + 1)..];
  }

  lemma {:induction false} BreakSeen(buf: seq<char>, was: seq<char>, s: string, done: string, in_: nat, n: nat)
    requires AtBreak(buf, was, s, done, in_, n)
    ensures Holds(was, s) && n <= in_ < |s| < |buf| && s[in_] == '\n' && Written(buf, was, done, in_ - n)
    ensures (forall k :: in_ - n <= k < in_ ==> buf[k] == '\\') && (in_ - n > 0 ==> buf[in_ - n - 1] != '\\')
    ensures Joined(LineBreak(done, n), NextLine(s[in_ - n..], n, n)) == Collapsed(s)
  {
    hide Joined, LineBreak, NextLine, Collapsed, Holds, Written;
    UnreadIs(buf, was, s, done, in_ - n);
    AtNewline(done, s[in_ - n..], n);
  }

  // ----- copying up to the next break

  /** One character that is no backslash. */
  lemma {:induction false} CopiedChar(done: string, t: string)
    requires t != "" && t[0] != '\\'
    ensures Joined(done, t) == Joined(done + [t[0]], t[1..])
  {
    hide Joined;
    if t[0] == '\n' {
      AtNewline(done, t, 0);
      PlainBreak(done, t, 0);
    } else {
      var i := LineEnd(t);
      assert i < |t| ==> t[i] == '\n';
      TailShort(t[..i], 0);
      Copied(done, t, 1);
      assert t[..1] == [t[0]];
    }
  }

  lemma {:induction false} TailShort(t: string, k: nat)
    requires k < |t| && t[k] != '\\'
    ensures k + 1 + Tail(t) <= |t|
  {
  }

  /** A run of backslashes that does not end a line. */
  lemma {:induction false} CopiedRun(done: string, t: string, m: nat)
    requires m <= |t| && (forall k :: 0 <= k < m ==> t[k] == '\\') && (m < |t| ==> t[m] != '\\' && t[m] != '\n')
    ensures Joined(done, t) == Joined(done + t[..m], t[m..])
  {
    hide Joined;
    var i := LineEnd(t);
    assert i < |t| ==> t[i] == '\n';
    if i < |t| {
      TailShort(t[..i], m);
    }
    Copied(done, t, m);
  }

  /** What the reader sees when it copies. */
  lemma {:induction false} CopyingSeen(buf: seq<char>, was: seq<char>, s: string, done: string, in_: nat)
    requires Copying(buf, was, s, done, in_)
    ensures |done| <= in_ <= |s| < |buf| && buf[|s|] == '\0' && Holds(was, s) && Written(buf, was, done, in_)
    ensures forall k :: in_ <= k < |s| ==> buf[k] == s[k] != '\0'
    ensures Joined(done, s[in_..]) == Collapsed(s)
  {
    hide Joined, Collapsed;
    forall k | in_ <= k < |buf|
      ensures buf[k] == was[k]
    {
      assert buf[k] == buf[in_..][k - in_] == was[in_..][k - in_];
    }
    assert was[..|s|] == s;
    assert forall k :: 0 <= k < |s| ==> was[k] == was[..|s|][k];
  }

  method CopyChar(line: array<char>, ghost s: string, ghost was: seq<char>, ghost done: string, in_: nat, out: nat)
    requires Copying(line[..], was, s, done, in_) && out == |done| && in_ < |s| && s[in_] != '\\'
    modifies line
    ensures Copying(line[..], was, s, done + [s[in_]], in_ + 1)
  {
    hide *;
    CopyingSeen(line[..], was, s, done, in_);
    CopiedChar(done, s[in_..]);
    assert s[in_..][1..] == s[in_ + 1..] && s[in_..][0] == s[in_];
    StillWritten(line[..], was, done, in_, done, in_ + 1);
    var out' := Put(line, was, done, in_ + 1, out, line[in_]);
    NowCopying(line[..], was, s, done + [s[in_]], in_ + 1);
  }

  method CopyRun(line: array<char>, ghost s: string, ghost was: seq<char>, ghost done: string, from: nat, to: nat, p: nat)
    requires Copying(line[..], was, s, done, from) && to == |done| && from <= p <= |s|
    requires (forall k :: from <= k < p ==> s[k] == '\\') && (p < |s| ==> s[p] != '\\' && s[p] != '\n')
    modifies line
    ensures Copying(line[..], was, s, done + s[from..p], p)
  {
    hide *;
    CopyingSeen(line[..], was, s, done, from);
    var in_, out := from, to;
    assert done + s[from..from] == done;
    while in_ < p
      invariant from <= in_ <= p && out == to + (in_ - from) && Written(line[..], was, done + s[from..in_], in_)
      invariant forall k :: in_ <= k < |s| ==> line[k] == s[k]
    {
      StillWritten(line[..], was, done + s[from..in_], in_, done + s[from..in_], in_ + 1);
      out := Put(line, was, done + s[from..in_], in_ + 1, out, line[in_]);
      assert done + s[from..in_] + [s[in_]] == done + s[from..in_ + 1];
      in_ := in_ + 1;
    }
    CopiedRun(done, s[from..], p - from);
    assert s[from..][..p - from] == s[from..p] && s[from..][p - from..] == s[p..];
    AfterRun(line[..], was, s, done + s[from..p], p);
  }

  lemma {:induction false} AfterRun(buf: seq<char>, was: seq<char>, s: string, done: string, p: nat)
    requires Holds(was, s) && p <= |s| && Written(buf, was, done, p) && Joined(done, s[p..]) == Collapsed(s)
    requires p < |s| ==> s[p] != '\\'
    ensures Copying(buf, was, s, done, p)
  {
    hide Joined, Collapsed, Holds;
  }

  /** Copies up to the next backslashes that end a line, or to the end. */
  method CopyLine(line: array<char>, ghost s: string, ghost was: seq<char>, ghost done: string, from: nat, to: nat)
    returns (in_: nat, out: nat, ghost done': string, ghost n: nat)
    requires Copying(line[..], was, s, done, from) && to == |done|
    modifies line
    ensures from <= in_ <= |s| && out == |done'|
    ensures if in_ < |s| then AtBreak(line[..], was, s, done', in_, n) else Copying(line[..], was, s, done', in_)
  {
    hide *;
    CopyingSeen(line[..], was, s, done, from);
    in_, out, done', n := from, to, done, 0;
    while true
      invariant from <= in_ <= |s| && out == |done'| && Copying(line[..], was, s, done', in_)
      decreases |s| - in_
    {
      CopyingSeen(line[..], was, s, done', in_);
      if line[in_] == '\0' {
        return;
      }
      if line[in_] == '\\' {
        var p := in_ + 1;
        while line[p] == '\\'
          invariant in_ < p <= |s| && forall k :: in_ <= k < p ==> s[k] == '\\'
          decreases |s| - p
        {
          p := p + 1;
        }
        if line[p] == '\n' {
          n := p - in_;
          BreakAhead(line[..], was, s, done', in_, p);
          in_ := p;
          return;
        }
        CopyRun(line, s, was, done', in_, out, p);
        out, done' := out + (p - in_), done' + s[in_..p];
        in_ := p;
      } else {
        CopyChar(line, s, was, done', in_, out);
        out, done' := out + 1, done' + [s[in_]];
        in_ := in_ + 1;
      }
    }
  }

  lemma {:induction false} BreakAhead(buf: seq<char>, was: seq<char>, s: string, done: string, in_: nat, p: nat)
    requires Copying(buf, was, s, done, in_) && in_ < p < |s| && s[p] == '\n' && forall k :: in_ <= k < p ==> s[k] == '\\'
    ensures AtBreak(buf, was, s, done, p, p - in_)
  {
    hide Joined, Collapsed, Holds;
  }

  /** Discards each backslash-newline of the line in the buffer. */
  method CollapseContinuations(line: array<char>, ghost s: string)
    requires Holds(line[..], s)
    modifies line
    ensures Holds(line[..], Collapsed(s))
  {
    hide *;
    ghost var was := line[..];
    var in_ := FindNewline(line, s);
    if line[in_] == '\0' {
      NoNewline(s, in_);
      return;
    }
    var out := BeforeBackslashes(line, s, in_);
    ghost var n: nat, done := in_ - out, s[..out];
    FirstBreak(line[..], s, in_, out);
    while line[in_] != '\0'
      invariant in_ <= |s| < line.Length && out == |done| && (line[in_] != '\0' <==> in_ < |s|)
      invariant if in_ < |s| then AtBreak(line[..], was, s, done, in_, n) else Copying(line[..], was, s, done, in_)
      decreases |s| - in_
    {
      in_, out, done := BreakLine(line, s, was, done, in_, out, n);
      CopyingSeen(line[..], was, s, done, in_);
      in_, out, done, n := CopyLine(line, s, was, done, in_, out);
      if in_ < |s| {
        BreakSeen(line[..], was, s, done, in_, n);
        UnreadIs(line[..], was, s, done, in_ - n);
      } else {
        CopyingSeen(line[..], was, s, done, in_);
      }
    }
    CopyingSeen(line[..], was, s, done, in_);
    AtEnd(line[..], was, s, done);
    line[out] := '\0';
    NowHolds(line[..], s, done);
  }

  method FindNewline(line: array<char>, ghost s: string) returns (i: nat)
    requires Holds(line[..], s)
    ensures i == LineEnd(s) <= |s| < line.Length && (line[i] == '\0' <==> i == |s|)
  {
    HoldsChars(line[..], s);
    hide Holds, LineEnd;
    i := 0;
    while line[i] != '\0' && line[i] != '\n'
      invariant i <= |s| && '\n' !in s[..i]
      decreases |s| - i
    {
      assert s[..i + 1] == s[..i] + [s[i]];
      i := i + 1;
    }
    LineEndIs(s, i);
  }

  lemma {:induction false} HoldsChars(buf: seq<char>, s: string)
    requires Holds(buf, s)
    ensures |s| < |buf| && buf[|s|] == '\0' && forall k :: 0 <= k < |s| ==> buf[k] == s[k] != '\0'
  {
    assert forall k :: 0 <= k < |s| ==> buf[k] == buf[..|s|][k];
  }

  /** The writer backs up over the backslashes before the first newline. */
  method BeforeBackslashes(line: array<char>, ghost s: string, in_: nat) returns (out: nat)
    requires Holds(line[..], s) && in_ <= |s|
    ensures out <= in_ && out == in_ - Tail(s[..in_])
  {
    HoldsChars(line[..], s);
    hide Holds, Tail;
    out := in_;
    while out > 0 && line[out - 1] == '\\'
      invariant out <= in_ && forall k :: out <= k < in_ ==> s[k] == '\\'
    {
      out := out - 1;
    }
    TailIs(s[..in_], in_ - out);
  }

  lemma {:induction false} NoNewline(s: string, i: nat)
    requires i == LineEnd(s) == |s|
    ensures Collapsed(s) == s
  {
    JoinedLast("", s);
    assert "" + s == s;
  }

  lemma {:induction false} FirstBreak(buf: seq<char>, s: string, in_: nat, out: nat)
    requires Holds(buf, s) && in_ == LineEnd(s) < |s| && out <= in_ && out == in_ - Tail(s[..in_])
    ensures AtBreak(buf, buf, s, s[..out], in_, in_ - out)
  {
    hide *;
    LineEndsThere(s);
    TailFits(s[..in_]);
    Copied("", s, out);
    BackslashesThere(s, in_);
    FirstWritten(buf, s, out);
    NowAtBreak(buf, s, in_, out);
  }

  lemma {:induction false} FirstWritten(buf: seq<char>, s: string, out: nat)
    requires Holds(buf, s) && out <= |s|
    ensures Written(buf, buf, s[..out], out) && (out > 0 ==> buf[out - 1] == s[out - 1]) && "" + s[..out] == s[..out]
    ensures Collapsed(s) == Joined("", s)
  {
    HoldsChars(buf, s);
    hide Joined;
  }

  lemma {:induction false} NowAtBreak(buf: seq<char>, s: string, in_: nat, out: nat)
    requires Holds(buf, s) && out <= in_ < |s| && s[in_] == '\n' && Written(buf, buf, s[..out], out)
    requires (forall k :: out <= k < in_ ==> s[k] == '\\') && (out > 0 ==> buf[out - 1] != '\\')
    requires Joined(s[..out], s[out..]) == Collapsed(s)
    ensures AtBreak(buf, buf, s, s[..out], in_, in_ - out)
  {
    hide Joined, Collapsed, Holds, Written;
  }

  lemma {:induction false} LineEndsThere(s: string)
    ensures LineEnd(s) < |s| ==> s[LineEnd(s)] == '\n'
  {
  }

  lemma {:induction false} TailFits(t: string)
    ensures Tail(t) <= |t|
  {
  }

  lemma {:induction false} BackslashesThere(s: string, in_: nat)
    requires in_ <= |s|
    ensures forall k :: in_ - Tail(s[..in_]) <= k < in_ ==> s[k] == '\\'
    ensures in_ - Tail(s[..in_]) > 0 ==> s[in_ - Tail(s[..in_]) - 1] != '\\'
  {
    var t, n := s[..in_], Tail(s[..in_]);
    assert forall k :: |t| - n <= k < |t| ==> t[k] == '\\';
    assert forall k :: 0 <= k < in_ ==> t[k] == s[k];
  }

  lemma {:induction false} AtEnd(buf: seq<char>, was: seq<char>, s: string, done: string)
    requires Copying(buf, was, s, done, |s|)
    ensures done == Collapsed(s) && '\0' !in done && |done| < |buf| && buf[..|done|] == done
  {
    assert s[|s|..] == "";
    JoinedLast(done, "");
    assert done + "" == done;
    NoNull("", s);
  }

  lemma {:induction false} NoNull(done: string, t: string)
    requires '\0' !in done && '\0' !in t
    ensures '\0' !in Joined(done, t)
    decreases |t|
  {
    hide *;
    var i := LineEnd(t);
    if i < |t| {
      var n := Tail(t[..i]);
      NoNullParts(done, t, i, n);
      JoinedAt(done, t, i, n);
      NoNull(LineBreak(done + t[..i - n], n), NextLine(t, i, n));
    } else {
      JoinedLast(done, t);
    }
  }

  lemma {:induction false} NoNullParts(done: string, t: string, i: nat, n: nat)
    requires '\0' !in done && '\0' !in t && n <= i < |t|
    ensures '\0' !in LineBreak(done + t[..i - n], n) && '\0' !in NextLine(t, i, n)
  {
    hide LineBreak;
    assert forall c :: c in t[..i - n] ==> c in t;
    assert forall c :: c in t[i + 1..] ==> c in t;
    NoNullInBreak(done + t[..i - n], n);
    assert forall c :: c in NextLine(t, i, n) ==> c in t[i + 1..];
  }

  lemma {:induction false} NoNullInBreak(done: string, n: nat)
    requires '\0' !in done
    ensures '\0' !in LineBreak(done, n)
  {
    assert '\0' !in Backslashes(n / 2);
    assert '\0' !in done + Backslashes(n / 2);
  }

  lemma {:induction false} NowHolds(buf: seq<char>, s: string, done: string)
    requires done == Collapsed(s) && '\0' !in done && |done| < |buf| && buf[..|done|] == done && buf[|done|] == '\0'
    ensures Holds(buf, Collapsed(s))
  {
  }
}
