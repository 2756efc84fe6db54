/** How switches travel in MAKEFLAGS: quoted word by word, expanded once, split again. */
module Quoting {
  import opened Wrappers
  import opened Tokens

  // ----- quoting

  /** What stands for one character: blanks and backslashes get a backslash, dollars are doubled. */
  function QuotedChar(c: char): string {
    if c == '$' then ['$', '$'] else if IsBlank(c) || c == '\\' then ['\\', c] else [c]
  }

  function Quoted(s: string): (q: string)
    ensures |s| <= |q| <= 2 * |s|
  {
    if s == "" then "" else QuotedChar(s[0]) + Quoted(s[1..])
  }

  lemma {:induction false} QuotedOneMore(s: string, k: nat)
    requires k < |s|
    ensures Quoted(s[..k + 1]) == Quoted(s[..k]) + QuotedChar(s[k])
  {
    hide QuotedChar;
    if k == 0 {
      assert s[..1] == [s[0]] && s[..1][1..] == "";
    } else {
      QuotedOneMore(s[1..], k - 1);
      assert s[..k + 1][1..] == s[1..][..k] && s[..k][1..] == s[1..][..k - 1];
    }
  }

  /** Writes one character. */
  method QuoteOne(buf: array<char>, out: nat, c: char) returns (end: nat)
    requires out + 2 <= buf.Length
    modifies buf
    ensures end == out + |QuotedChar(c)| && buf[out..end] == QuotedChar(c)
    ensures forall k :: 0 <= k < out || end <= k < buf.Length ==> buf[k] == old(buf[k])
  {
    end := out;
    if c == '$' {
      buf[end] := '$';
      end := end + 1;
    } else if IsBlank(c) || c == '\\' {
      buf[end] := '\\';
      end := end + 1;
    }
    buf[end] := c;
    end := end + 1;
  }

  /** Writes the quoted form of `s` from `out` on; room for twice its length is enough. */
  method QuoteForEnv(buf: array<char>, out: nat, s: string) returns (end: nat)
    requires out + 2 * |s| <= buf.Length
    modifies buf
    ensures out <= end <= out + 2 * |s| && buf[out..end] == Quoted(s)
    ensures forall k :: 0 <= k < out || end <= k < buf.Length ==> buf[k] == old(buf[k])
  {
    hide Quoted;
    end := out;
    var k := 0;
    QuotedNothing();
    while k < |s|
      invariant k <= |s| && out <= end <= out + 2 * k
      invariant buf[out..end] == Quoted(s[..k])
      invariant forall i :: 0 <= i < out || end <= i < buf.Length ==> buf[i] == old(buf[i])
    {
      QuotedOneMore(s, k);
      ghost var from, done := end, buf[out..end];
      end := QuoteOne(buf, end, s[k]);
      assert buf[out..from] == done;
      assert buf[out..end] == buf[out..from] + buf[from..end];
      k := k + 1;
    }
    assert s[..k] == s;
  }

  lemma {:induction false} QuotedNothing()
    ensures Quoted("") == ""
  {
  }

  /** Character by character: a dollar is doubled, a space, tab or backslash gets a backslash in front. */
  lemma {:induction false} QuotedLast(s: string, c: char)
    ensures Quoted(s + [c]) == Quoted(s) + if c == '$' then "$$" else if c in " \t\\" then "\\" + [c] else [c]
    ensures Quoted("") == ""
  {
    assert (s + [c])[..|s| + 1] == s + [c] && (s + [c])[..|s|] == s;
    QuotedOneMore(s + [c], |s|);
  }

  // ----- expansion

  /** A string whose dollars all come in pairs, expanded; None where a variable is referred to. */
  function Expanded(s: string): Option<string> {
    if s == "" then Some("")
    else if s[0] != '$' then
      match Expanded(s[1..]) case None => None case Some(e) => Some([s[0]] + e)
    else if |s| > 1 && s[1] == '$' then
      match Expanded(s[2..]) case None => None case Some(e) => Some(['$'] + e)
    else None
  }

  function EscapedChar(c: char): string {
    if IsBlank(c) || c == '\\' then ['\\', c] else [c]
  }

  /** The quoted form after expansion: only the backslashes are left. */
  function Escaped(s: string): string {
    if s == "" then "" else EscapedChar(s[0]) + Escaped(s[1..])
  }

  lemma {:induction false} ExpandPlain(c: char, rest: string)
    requires c != '$' && Expanded(rest).Some?
    ensures Expanded([c] + rest) == Some([c] + Expanded(rest).value)
  {
    assert ([c] + rest)[1..] == rest;
  }

  lemma {:induction false} ExpandDollars(rest: string)
    requires Expanded(rest).Some?
    ensures Expanded(['$', '$'] + rest) == Some(['$'] + Expanded(rest).value)
  {
    assert (['$', '$'] + rest)[2..] == rest;
  }

  lemma {:induction false} ExpandChar(c: char, rest: string)
    requires Expanded(rest).Some?
    ensures Expanded(QuotedChar(c) + rest) == Some(EscapedChar(c) + Expanded(rest).value)
  {
    hide Expanded;
    if c == '$' {
      ExpandDollars(rest);
    } else {
      ExpandPlain(c, rest);
      if |QuotedChar(c)| == 2 {
        ExpandPlain('\\', [c] + rest);
        assert QuotedChar(c) + rest == ['\\'] + ([c] + rest);
        assert EscapedChar(c) + Expanded(rest).value == ['\\'] + ([c] + Expanded(rest).value);
      }
    }
  }

  lemma {:induction false} ExpandQuoted(s: string, t: string)
    requires Expanded(t).Some?
    ensures Expanded(Quoted(s) + t) == Some(Escaped(s) + Expanded(t).value)
  {
    hide Expanded, QuotedChar, EscapedChar;
    if s == "" {
      assert Quoted(s) + t == t && Escaped(s) + Expanded(t).value == Expanded(t).value;
    } else {
      ExpandQuoted(s[1..], t);
      assert Quoted(s) + t == QuotedChar(s[0]) + (Quoted(s[1..]) + t);
      ExpandChar(s[0], Quoted(s[1..]) + t);
      assert Escaped(s) + Expanded(t).value == EscapedChar(s[0]) + (Escaped(s[1..]) + Expanded(t).value);
    }
  }

  // ----- splitting

  /** Puts `w` before the first of some words. */
  function Glue(w: string, words: seq<string>): seq<string>
    requires words != []
  {
    [w + words[0]] + words[1..]
  }

  /** The words of a value, the one in progress first: a backslash makes the next character an
      ordinary one, a run of blanks ends a word. */
  function Split(s: string): (words: seq<string>)
    ensures words != []
    decreases |s|
  {
    if s == "" then [""]
    else if s[0] == '\\' && |s| > 1 then Glue([s[1]], Split(s[2..]))
    else if IsBlank(s[0]) then [""] + Split(SkipBlanks(s[1..]))
    else Glue([s[0]], Split(s[1..]))
  }

  /** Piece by piece: other text goes into the word in progress, so does a character behind a backslash, and
      spaces and tabs end it. */
  lemma {:induction false} SplitPieces(u: string, c: char, gap: string, rest: string)
    requires ' ' !in u && '\t' !in u && '\\' !in u && gap != "" && OnlyBlanks(gap)
    ensures var words := Split(rest);
            Split(u + rest) == [u + words[0]] + words[1..] && Split("\\" + [c] + rest) == [[c] + words[0]] + words[1..] &&
            (rest == "" || rest[0] !in " \t" ==> Split(gap + rest) == [""] + words) &&
            Split("") == [""]
  {
    SplitPlain(u, rest);
    assert ("\\" + [c] + rest)[2..] == rest;
    if rest == "" || rest[0] !in " \t" {
      GapSkipped(gap, rest);
    }
    hide SkipBlanks;
  }

  lemma {:induction false} SplitPlain(u: string, rest: string)
    requires ' ' !in u && '\t' !in u && '\\' !in u
    ensures Split(u + rest) == Glue(u, Split(rest))
    decreases |u|
  {
    if u == "" {
      assert u + rest == rest;
      GlueNothing(Split(rest));
    } else {
      var more := u[1..] + rest;
      SplitPlain(u[1..], rest);
      assert (u + rest)[1..] == more && (u + rest)[0] == u[0];
      assert Split(u + rest) == Glue([u[0]], Split(more));
      hide Split, Glue;
      GlueTwice([u[0]], u[1..], Split(rest));
      assert [u[0]] + u[1..] == u;
    }
  }

  lemma {:induction false} GapSkipped(gap: string, rest: string)
    requires gap != "" && OnlyBlanks(gap) && (rest == "" || rest[0] !in " \t")
    ensures IsBlank((gap + rest)[0]) && SkipBlanks((gap + rest)[1..]) == rest
  {
    var s := (gap + rest)[1..];
    var i := |gap| - 1;
    assert s == gap[1..] + rest;
    assert forall k :: 0 <= k < i ==> s[k] == gap[k + 1];
    assert rest != "" ==> s[i] == rest[0];
    BlankEndIs(s, i);
    assert s[i..] == rest;
  }

  /** The argument words in a value. */
  function Decoded(value: string): seq<string> {
    if SkipBlanks(value) == "" then [] else Split(SkipBlanks(value))
  }

  lemma {:induction false} GlueTwice(v: string, w: string, words: seq<string>)
    requires words != []
    ensures Glue(v, Glue(w, words)) == Glue(v + w, words)
  {
    assert v + (w + words[0]) == v + w + words[0];
  }

  lemma {:induction false} GlueNothing(words: seq<string>)
    requires words != []
    ensures Glue("", words) == words
  {
    assert "" + words[0] == words[0];
  }

  lemma {:induction false} SplitEscapedChar(c: char, rest: string)
    ensures Split(EscapedChar(c) + rest) == Glue([c], Split(rest))
  {
    var s := EscapedChar(c) + rest;
    assert s[|EscapedChar(c)|..] == rest;
  }

  lemma {:induction false} SplitEscaped(w: string, rest: string)
    ensures Split(Escaped(w) + rest) == Glue(w, Split(rest))
  {
    hide Split, Glue, EscapedChar;
    if w == "" {
      assert Escaped(w) + rest == rest;
      GlueNothing(Split(rest));
    } else {
      SplitEscaped(w[1..], rest);
      assert Escaped(w) + rest == EscapedChar(w[0]) + (Escaped(w[1..]) + rest);
      SplitEscapedChar(w[0], Escaped(w[1..]) + rest);
      GlueTwice([w[0]], w[1..], Split(rest));
      assert [w[0]] + w[1..] == w;
    }
  }

  // ----- the splitting loop

  /** A word stands at `at`, with its terminating null before `p`. */
  ghost predicate StoredAt(buf: seq<char>, p: nat, at: int, w: string) {
    0 <= at && at + |w| < p <= |buf| && buf[at..at + |w|] == w && buf[at + |w|] == '\0'
  }

  /** The finished words, from the second entry of the vector on. */
  ghost predicate Stored(buf: seq<char>, p: nat, argv: seq<int>, words: seq<string>) {
    |words| < |argv| && forall k :: 0 <= k < |words| ==> StoredAt(buf, p, argv[k + 1], words[k])
  }

  const NULL := -1

  /** Splits a value into an argument vector.  The words are copied to a buffer of twice the
      length of the value; neither it nor the vector can overflow. */
  method DecodeEnvSwitches(value: string) returns (argc: nat, argv: array<int>, buf: array<char>)
    ensures argc == |Decoded(value)| + (if Decoded(value) == [] then 0 else 1)
    ensures argv.Length == |SkipBlanks(value)| + 2 && buf.Length == 2 * |SkipBlanks(value)|
    ensures Decoded(value) != [] ==> argc < argv.Length && argv[0] == NULL && argv[argc] == NULL
    ensures Decoded(value) != [] ==> Stored(buf[..], buf.Length, argv[..], Decoded(value))
  {
    var i := NextToken(value, 0);
    var v := value[i..];
    buf, argv := new char[2 * |v|], new int[1 + |v| + 1];
    if |v| == 0 {
      return 0, argv, buf;
    }
    argc := SplitWords(v, argv, buf);
  }

  lemma {:induction false} StoredStill(b: seq<char>, b': seq<char>, p: nat, p': nat, argv: seq<int>, argv': seq<int>, words: seq<string>)
    requires Stored(b, p, argv, words) && p <= p' <= |b'| == |b| && |argv'| == |argv|
    requires forall k :: 0 <= k < p ==> b'[k] == b[k]
    requires forall k :: 0 <= k <= |words| ==> argv'[k] == argv[k]
    ensures Stored(b', p', argv', words)
  {
    forall k | 0 <= k < |words|
      ensures StoredAt(b', p', argv'[k + 1], words[k])
    {
      assert StoredAt(b, p, argv[k + 1], words[k]);
    }
  }

  /** What the next character does to the words in front of it. */
  lemma {:induction false} SplitStep(v: string, i: nat, cur: string)
    requires i < |v|
    ensures v[i] == '\\' && i + 1 < |v| ==> Glue(cur, Split(v[i..])) == Glue(cur + [v[i + 1]], Split(v[i + 2..]))
    ensures IsBlank(v[i]) ==> Glue(cur, Split(v[i..])) == [cur] + Glue("", Split(v[BlankEnd(v, i + 1)..]))
    ensures !IsBlank(v[i]) && !(v[i] == '\\' && i + 1 < |v|) ==> Glue(cur, Split(v[i..])) == Glue(cur + [v[i]], Split(v[i + 1..]))
  {
    var s := v[i..];
    assert s[1..] == v[i + 1..];
    hide Glue;
    if v[i] == '\\' && i + 1 < |v| {
      assert s[2..] == v[i + 2..];
      GlueTwice(cur, [v[i + 1]], Split(v[i + 2..]));
    } else if IsBlank(v[i]) {
      BlankEndOfSuffix(v, i + 1, 0);
      var n := BlankEnd(v, i + 1);
      assert SkipBlanks(s[1..]) == v[n..];
      GlueNothing(Split(v[n..]));
      GlueEmpty(cur, Split(v[n..]));
    } else {
      GlueTwice(cur, [v[i]], Split(v[i + 1..]));
    }
  }

  lemma {:induction false} GlueEmpty(cur: string, words: seq<string>)
    ensures Glue(cur, [""] + words) == [cur] + words
  {
    assert cur + "" == cur;
  }

  /** Terminates the word in progress, and sets the next entry of the vector. */
  method EndWord(argv: array<int>, argc: nat, buf: array<char>, p: nat, next: int, ghost words: seq<string>, ghost cur: string) returns (p': nat)
    requires Stored(buf[..], p, argv[..], words) && argc == |words| + 1 && argc + 1 < argv.Length && p < buf.Length
    requires 0 <= argv[argc] && argv[argc] + |cur| == p && buf[argv[argc]..p] == cur
    modifies argv, buf
    ensures Stored(buf[..], p', argv[..], words + [cur]) && p' == p + 1
    ensures argv[argc + 1] == next && argv[0] == old(argv[0])
  {
    hide Stored;
    ghost var b, a := buf[..], argv[..];
    buf[p] := '\0';
    argv[argc + 1] := next;
    p' := p + 1;
    StoredMore(b, buf[..], p, a, argv[..], words, cur);
  }

  /** One character more of the word in progress. */
  method PutChar(buf: array<char>, p: nat, c: char, ghost argv: seq<int>, ghost words: seq<string>, ghost from: int, ghost cur: string)
    requires Stored(buf[..], p, argv, words) && p < buf.Length && 0 <= from && from + |cur| == p && buf[from..p] == cur
    modifies buf
    ensures Stored(buf[..], p + 1, argv, words) && buf[from..p + 1] == cur + [c]
  {
    assert |words| < |argv|;
    hide Stored;
    ghost var b := buf[..];
    buf[p] := c;
    StoredStill(b, buf[..], p, p + 1, argv, argv, words);
    assert buf[from..p] == b[from..p];
  }

  method SplitWords(v: string, argv: array<int>, buf: array<char>) returns (argc: nat)
    requires v != "" && !IsBlank(v[0])
    requires argv.Length == 1 + |v| + 1 && buf.Length == 2 * |v|
    modifies argv, buf
    ensures argc == |Split(v)| + 1 < argv.Length && argv[0] == NULL && argv[argc] == NULL
    ensures Stored(buf[..], buf.Length, argv[..], Split(v))
  {
    hide Split, Glue, StoredAt;
    var value, p := 0, 0;
    argv[0] := NULL;
    argc := 1;
    argv[argc] := p;
    ghost var words: seq<string>, cur: string := [], "";
    GlueNothing(Split(v));
    assert v[0..] == v;
    while value < |v|
      invariant value <= |v| && p <= value && argc == |words| + 1 && (argc <= value || argc == 1)
      invariant argv[0] == NULL && 0 <= argv[argc] && argv[argc] + |cur| == p && buf[argv[argc]..p] == cur
      invariant Stored(buf[..], p, argv[..], words)
      invariant words + Glue(cur, Split(v[value..])) == Split(v)
      decreases |v| - value
    {
      SplitStep(v, value, cur);
      if v[value] == '\\' && value + 1 < |v| {
        value := value + 1;
      } else if IsBlank(v[value]) {
        p := EndWord(argv, argc, buf, p, p + 1, words, cur);
        argc := argc + 1;
        words, cur := words + [cur], "";
        value := NextToken(v, value + 1);
        continue;
      }
      PutChar(buf, p, v[value], argv[..], words, argv[argc], cur);
      cur := cur + [v[value]];
      p := p + 1;
      value := value + 1;
    }
    p := EndWord(argv, argc, buf, p, NULL, words, cur);
    argc := argc + 1;
    assert v[value..] == "";
    SplitNothing(cur);
    StoredStill(buf[..], buf[..], p, buf.Length, argv[..], argv[..], words + [cur]);
  }

  /** A null ends the word in progress. */
  lemma {:induction false} StoredMore(b: seq<char>, b': seq<char>, p: nat, argv: seq<int>, argv': seq<int>, words: seq<string>, cur: string)
    requires Stored(b, p, argv, words) && p < |b'| == |b| && |argv'| == |argv| > |words| + 1
    requires forall k :: 0 <= k < p ==> b'[k] == b[k]
    requires forall k :: 0 <= k <= |words| + 1 ==> argv'[k] == argv[k]
    requires 0 <= argv[|words| + 1] && argv[|words| + 1] + |cur| == p && b[argv[|words| + 1]..p] == cur && b'[p] == '\0'
    ensures Stored(b', p + 1, argv', words + [cur])
  {
    StoredStill(b, b', p, p + 1, argv, argv', words);
    assert b'[argv[|words| + 1]..p] == b[argv[|words| + 1]..p];
    assert StoredAt(b', p + 1, argv'[|words| + 1], cur);
    hide StoredAt;
  }

  // ----- the round trip

  function QuotedAll(words: seq<string>): seq<string> {
    if words == [] then [] else [Quoted(words[0])] + QuotedAll(words[1..])
  }

  /** What is passed on for some words: each quoted, with one space between them. */
  function Flags(words: seq<string>): string {
    Join(QuotedAll(words))
  }

  function EscapedAll(words: seq<string>): string {
    if words == [] then "" else if |words| == 1 then Escaped(words[0])
    else Escaped(words[0]) + " " + EscapedAll(words[1..])
  }

  lemma {:induction false} FlagsStep(words: seq<string>)
    ensures |words| == 0 ==> Flags(words) == ""
    ensures |words| == 1 ==> Flags(words) == Quoted(words[0])
    ensures |words| > 1 ==> Flags(words) == Quoted(words[0]) + (" " + Flags(words[1..]))
  {
    hide Quoted;
    if |words| == 0 {
      return;
    }
    if |words| == 1 {
      assert QuotedAll(words) == [Quoted(words[0])] + QuotedAll(words[1..]);
      assert words[1..] == [];
      return;
    }
    assert QuotedAll(words)[0] == Quoted(words[0]) && QuotedAll(words)[1..] == QuotedAll(words[1..]);
    assert QuotedAll(words[1..]) != [];
  }

  lemma {:induction false} ExpandBlank(s: string)
    requires Expanded(s).Some?
    ensures Expanded(" " + s) == Some(" " + Expanded(s).value)
  {
    assert (" " + s)[1..] == s;
  }

  lemma {:induction false} ExpandOne(w: string)
    ensures Expanded(Quoted(w)) == Some(Escaped(w))
  {
    ExpandQuoted(w, "");
    hide Expanded, Quoted, Escaped;
    assert Quoted(w) + "" == Quoted(w) && Escaped(w) + "" == Escaped(w);
  }

  lemma {:induction false} ExpandFlags(words: seq<string>)
    ensures Expanded(Flags(words)) == Some(EscapedAll(words))
  {
    hide Quoted, Escaped, Expanded, Flags;
    FlagsStep(words);
    if |words| == 0 {
      ExpandNothing();
    } else if |words| == 1 {
      ExpandOne(words[0]);
    } else {
      ExpandFlags(words[1..]);
      ExpandBlank(Flags(words[1..]));
      ExpandQuoted(words[0], " " + Flags(words[1..]));
      assert Escaped(words[0]) + (" " + EscapedAll(words[1..])) == EscapedAll(words);
    }
  }

  lemma {:induction false} ExpandNothing()
    ensures Expanded("") == Some("")
  {
  }

  /** The words that come through: empty ones get lost, except for the last. */
  function Kept(words: seq<string>): (kept: seq<string>)
    requires words != []
    ensures kept != [] && |kept| <= |words|
  {
    if |words| == 1 then words else if words[0] == "" then Kept(words[1..]) else [words[0]] + Kept(words[1..])
  }

  lemma {:induction false} KeptAll(words: seq<string>)
    requires words != []
    ensures Kept(words) == words <==> forall k :: 0 <= k < |words| - 1 ==> words[k] != ""
  {
    if |words| > 1 {
      KeptAll(words[1..]);
      if words[0] != "" {
        assert Kept(words) == words <==> Kept(words[1..]) == words[1..];
        assert forall k :: 1 <= k < |words| - 1 ==> words[k] == words[1..][k - 1];
        assert forall k :: 0 <= k < |words[1..]| - 1 ==> words[1..][k] == words[k + 1];
      }
    }
  }

  lemma {:induction false} EscapedStart(w: string)
    ensures w != "" ==> Escaped(w) != "" && !IsBlank(Escaped(w)[0])
    ensures w == "" ==> Escaped(w) == ""
  {
  }

  lemma {:induction false} SkipNothing(s: string)
    requires s == "" || !IsBlank(s[0])
    ensures SkipBlanks(s) == s
  {
  }

  lemma {:induction false} SkipOne(s: string)
    ensures SkipBlanks(" " + s) == SkipBlanks(s)
  {
    var t := " " + s;
    assert t[1..] == s;
    BlankEndOfSuffix(t, 1, 0);
    assert BlankEnd(t, 0) == BlankEnd(t, 1);
  }

  lemma {:induction false} SplitAtBlank(rest: string)
    ensures Split(" " + rest) == [""] + Split(SkipBlanks(rest))
  {
    assert (" " + rest)[1..] == rest;
  }

  /** A word at the front, with its text already escaped. */
  lemma {:induction false} SplitFirst(w: string, rest: string)
    requires w != ""
    ensures SkipBlanks(Escaped(w) + " " + rest) == Escaped(w) + " " + rest
    ensures Split(Escaped(w) + " " + rest) == [w] + Split(SkipBlanks(rest))
  {
    hide Split, SkipBlanks;
    EscapedStart(w);
    SkipNothing(Escaped(w) + " " + rest);
    assert Escaped(w) + " " + rest == Escaped(w) + (" " + rest);
    SplitEscaped(w, " " + rest);
    SplitAtBlank(rest);
    assert Glue(w, [""] + Split(SkipBlanks(rest))) == [w] + Split(SkipBlanks(rest)) by {
      assert w + "" == w;
    }
  }

  lemma {:induction false} SplitAll(words: seq<string>)
    requires words != []
    ensures Split(SkipBlanks(EscapedAll(words))) == Kept(words)
    ensures SkipBlanks(EscapedAll(words)) == "" <==> Kept(words) == [""]
  {
    hide Split, SkipBlanks, Escaped;
    EscapedStart(words[0]);
    if |words| == 1 {
      SkipNothing(Escaped(words[0]));
      assert Escaped(words[0]) + "" == Escaped(words[0]);
      SplitEscaped(words[0], "");
      SplitNothing(words[0]);
    } else {
      SplitAll(words[1..]);
      var rest := EscapedAll(words[1..]);
      if words[0] == "" {
        assert EscapedAll(words) == " " + rest;
        SkipOne(rest);
      } else {
        SplitFirst(words[0], rest);
        assert EscapedAll(words) == Escaped(words[0]) + " " + rest;
      }
    }
  }

  lemma {:induction false} SplitNothing(w: string)
    ensures Glue(w, Split("")) == [w]
  {
    assert w + "" == w;
  }

  /** Quoting, expanding once and splitting gives back every word that is not an empty one before
      the last. */
  lemma {:induction false} RoundTrip(words: seq<string>)
    ensures Expanded(Flags(words)).Some?
    ensures Decoded(Expanded(Flags(words)).value) == if words == [] || Kept(words) == [""] then [] else Kept(words)
  {
    hide Split, SkipBlanks, Escaped, Flags, Expanded;
    ExpandFlags(words);
    if words == [] {
      SkipNothing("");
    } else {
      SplitAll(words);
    }
  }

  /** So a list of words comes back unchanged exactly if no word but the last is empty, and the
      last is not the only one. */
  lemma {:induction false} RoundTripExact(words: seq<string>)
    ensures Expanded(Flags(words)).Some?
    ensures Decoded(Expanded(Flags(words)).value) == words <==>
            words != [""] && forall k :: 0 <= k < |words| - 1 ==> words[k] != ""
  {
    hide Flags, Expanded, Decoded;
    RoundTrip(words);
    if words != [] {
      KeptAll(words);
    }
  }
}
