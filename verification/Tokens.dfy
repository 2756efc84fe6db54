/** Blank-separated words: the token scanners and the word lists made with them. */
module Tokens {
  import opened Wrappers

  predicate IsBlank(c: char) {
    c == ' ' || c == '\t'
  }

  ghost predicate NoBlanks(w: string) {
    forall i :: 0 <= i < |w| ==> !IsBlank(w[i])
  }

  /** What a token is: not empty and without blanks. */
  ghost predicate IsWord(w: string) {
    w != "" && NoBlanks(w)
  }

  /** The first position from `i` on that holds no blank. */
  function BlankEnd(s: string, i: nat): (j: nat)
    requires i <= |s|
    ensures i <= j <= |s| && (j < |s| ==> !IsBlank(s[j]))
    ensures forall k :: i <= k < j ==> IsBlank(s[k])
    decreases |s| - i
  {
    if i < |s| && IsBlank(s[i]) then BlankEnd(s, i + 1) else i
  }

  /** What is left behind the blanks at the beginning. */
  function SkipBlanks(s: string): (r: string)
    ensures |r| <= |s| && (r != "" ==> !IsBlank(r[0]))
  {
    s[BlankEnd(s, 0)..]
  }

  /** The first position from `i` on that holds a blank. */
  function TokenEnd(s: string, i: nat): (j: nat)
    requires i <= |s|
    ensures i <= j <= |s| && (j < |s| ==> IsBlank(s[j]))
    ensures forall k :: i <= k < j ==> !IsBlank(s[k])
    decreases |s| - i
  {
    if i < |s| && !IsBlank(s[i]) then TokenEnd(s, i + 1) else i
  }

  /** The words of `s` from position `i` on. */
  function Words(s: string, i: nat): (ws: seq<string>)
    requires i <= |s|
    ensures forall k :: 0 <= k < |ws| ==> IsWord(ws[k])
    decreases |s| - i
  {
    var b := BlankEnd(s, i);
    if b == |s| then [] else
      var e := TokenEnd(s, b);
      [s[b..e]] + Words(s, e)
  }

  /** next_token */
  method NextToken(s: string, i: nat) returns (j: nat)
    requires i <= |s|
    ensures j == BlankEnd(s, i)
  {
    j := i;
    while j < |s| && IsBlank(s[j])
      invariant i <= j <= |s| && BlankEnd(s, j) == BlankEnd(s, i)
    {
      j := j + 1;
    }
  }

  /** end_of_token */
  method EndOfToken(s: string, i: nat) returns (j: nat)
    requires i <= |s|
    ensures j == TokenEnd(s, i)
  {
    j := i;
    while j < |s| && !IsBlank(s[j])
      invariant i <= j <= |s| && TokenEnd(s, j) == TokenEnd(s, i)
    {
      j := j + 1;
    }
  }

  /** find_next_token: the next token's bounds, or None at the end of the string. */
  method FindNextToken(s: string, i: nat) returns (token: Option<(nat, nat)>)
    requires i <= |s|
    ensures token == TokenAt(s, i)
  {
    var p := NextToken(s, i);
    if p == |s| {
      return None;
    }
    var e := EndOfToken(s, p);
    return Some((p, e));
  }

  /** The bounds of the first token at or after position `i`. */
  function TokenAt(s: string, i: nat): (token: Option<(nat, nat)>)
    requires i <= |s|
    ensures token.Some? ==> i <= token.value.0 < token.value.1 <= |s|
  {
    var b := BlankEnd(s, i);
    if b == |s| then None else Some((b, TokenEnd(s, b)))
  }

  /** Taking the first token, and the blank behind it, leaves the words of the rest. */
  lemma {:induction false} WordsStep(s: string, i: nat)
    requires i <= |s|
    ensures match TokenAt(s, i)
            case None => Words(s, i) == []
            case Some((p, e)) => Words(s, i) == [s[p..e]] + Words(s, if e < |s| then e + 1 else e)
  {
    WordsUnfold(s, i);
    TokenAtIs(s, i);
    hide *;
    if TokenAt(s, i).Some? {
      StepOverBlank(s, TokenAt(s, i).value.1);
    }
  }

  lemma {:induction false} WordsUnfold(s: string, i: nat)
    requires i <= |s|
    ensures var b := BlankEnd(s, i); var e := TokenEnd(s, b);
            Words(s, i) == (if b == |s| then [] else [s[b..e]] + Words(s, e)) && (b < |s| ==> b < e)
  {
    hide BlankEnd;
  }

  lemma {:induction false} TokenAtIs(s: string, i: nat)
    requires i <= |s|
    ensures var b := BlankEnd(s, i); TokenAt(s, i) == if b == |s| then None else Some((b, TokenEnd(s, b)))
    ensures TokenAt(s, i).Some? ==> var e := TokenAt(s, i).value.1; e < |s| ==> IsBlank(s[e])
  {
    hide BlankEnd, TokenEnd, IsBlank;
  }

  /** The loop of the text functions: token after token, stepping over the blank behind each. */
  method ChopWords(s: string) returns (ws: seq<string>)
    ensures ws == Words(s, 0)
  {
    hide Words, TokenAt;
    ws := [];
    var i: nat := 0;
    var token := FindNextToken(s, i);
    while token.Some?
      invariant 0 <= i <= |s| && ws + Words(s, i) == Words(s, 0) && token == TokenAt(s, i)
      decreases |s| - i, token.Some?
    {
      var (p, e) := token.value;
      WordsStep(s, i);
      ws := ws + [s[p..e]];
      i := if e < |s| then e + 1 else e;
      token := FindNextToken(s, i);
    }
    WordsStep(s, i);
  }

  lemma {:induction false} StepOverBlank(s: string, e: nat)
    requires e <= |s| && (e < |s| ==> IsBlank(s[e]))
    ensures Words(s, e) == Words(s, if e < |s| then e + 1 else e)
  {
  }

  /** Words separated by single spaces. */
  function Join(ws: seq<string>): string {
    if |ws| == 0 then ""
    else if |ws| == 1 then ws[0]
    else ws[0] + " " + Join(ws[1..])
  }

  /** Joining words and splitting the result gives the words back. */
  lemma {:induction false} WordsOfJoin(ws: seq<string>)
    requires forall k :: 0 <= k < |ws| ==> IsWord(ws[k])
    ensures Words(Join(ws), 0) == ws
  {
    hide Words, Join;
    if |ws| == 0 {
      EmptyJoin(ws);
    } else {
      WordsOfJoin(ws[1..]);
      WordsOfLongerJoin(ws);
    }
  }

  lemma {:induction false} EmptyJoin(ws: seq<string>)
    requires |ws| == 0
    ensures Words(Join(ws), 0) == ws
  {
  }

  lemma {:induction false} WordsOfLongerJoin(ws: seq<string>)
    requires |ws| > 0 && IsWord(ws[0]) && Words(Join(ws[1..]), 0) == ws[1..]
    ensures Words(Join(ws), 0) == ws
  {
    FirstTokenOfJoin(ws);
    JoinedWords(Join(ws), |ws[0]|, ws);
  }

  lemma {:induction false} JoinedWords(s: string, n: nat, ws: seq<string>)
    requires |ws| > 0 && n <= |s| && TokenAt(s, 0) == Some((0, n)) && s[0..n] == ws[0]
    requires if |ws| == 1 then |s| == n else n < |s| && Words(s[n + 1..], 0) == ws[1..]
    ensures Words(s, 0) == ws
  {
    hide Words, TokenAt;
    WordsStep(s, 0);
    if |ws| == 1 {
      NoWordsAtEnd(s);
      assert Words(s, 0) == [s[0..n]];
    } else {
      WordsOfSuffix(s, n + 1, 0);
      assert Words(s, 0) == [s[0..n]] + ws[1..];
    }
  }

  lemma {:induction false} FirstTokenOfJoin(ws: seq<string>)
    requires |ws| > 0 && IsWord(ws[0])
    ensures var s, n := Join(ws), |ws[0]|;
            TokenAt(s, 0) == Some((0, n)) && s[0..n] == ws[0] &&
            if |ws| == 1 then |s| == n else n < |s| && s[n + 1..] == Join(ws[1..])
  {
    TokenEndOfPrefix(Join(ws), 0, |ws[0]|);
  }

  lemma {:induction false} NoWordsAtEnd(s: string)
    ensures Words(s, |s|) == []
  {
  }

  lemma {:induction false} TokenEndOfPrefix(s: string, i: nat, e: nat)
    requires i <= e <= |s| && (e < |s| ==> IsBlank(s[e]))
    requires forall k :: i <= k < e ==> !IsBlank(s[k])
    ensures TokenEnd(s, i) == e
    decreases e - i
  {
    if i < e {
      TokenEndOfPrefix(s, i + 1, e);
    }
  }

  /** Words do not depend on what was cut off in front. */
  lemma {:induction false} WordsOfSuffix(s: string, cut: nat, i: nat)
    requires cut + i <= |s|
    ensures Words(s, cut + i) == Words(s[cut..], i)
    decreases |s| - i
  {
    hide *;
    var t := s[cut..];
    WordsUnfold(s, cut + i);
    WordsUnfold(t, i);
    BlankEndOfSuffix(s, cut, i);
    var b := BlankEnd(t, i);
    if b < |t| {
      TokenEndOfSuffix(s, cut, b);
      var e := TokenEnd(t, b);
      SliceOfSuffix(s, cut, b, e);
      WordsOfSuffix(s, cut, e);
    }
  }

  lemma {:induction false} SliceOfSuffix(s: string, cut: nat, b: nat, e: nat)
    requires b <= e && cut + e <= |s|
    ensures s[cut..][b..e] == s[cut + b..cut + e]
  {
  }

  lemma {:induction false} BlankEndOfSuffix(s: string, cut: nat, i: nat)
    requires cut + i <= |s|
    ensures BlankEnd(s, cut + i) == cut + BlankEnd(s[cut..], i)
    decreases |s| - i
  {
    if cut + i < |s| {
      BlankEndOfSuffix(s, cut, i + 1);
    }
  }

  lemma {:induction false} TokenEndOfSuffix(s: string, cut: nat, i: nat)
    requires cut + i <= |s|
    ensures TokenEnd(s, cut + i) == cut + TokenEnd(s[cut..], i)
    decreases |s| - i
  {
    if cut + i < |s| {
      TokenEndOfSuffix(s, cut, i + 1);
    }
  }

  /** Words with any spaces and tabs between and around them. */
  function Spread(gaps: seq<string>, ws: seq<string>): string
    requires |gaps| == |ws| + 1
  {
    if ws == [] then gaps[0] else gaps[0] + ws[0] + Spread(gaps[1..], ws[1..])
  }

  /** These are the words of such a text. */
  lemma {:induction false} WordsOfSpread(gaps: seq<string>, ws: seq<string>)
    requires |gaps| == |ws| + 1
    requires forall k :: 0 <= k < |ws| ==> ws[k] != "" && ' ' !in ws[k] && '\t' !in ws[k]
    requires forall k :: 0 <= k < |gaps| ==> OnlyBlanks(gaps[k]) && (0 < k < |ws| ==> gaps[k] != "")
    ensures Words(Spread(gaps, ws), 0) == ws
  {
    hide *;
    if ws == [] {
      NothingSpread(gaps);
    } else {
      WordsOfSpread(gaps[1..], ws[1..]);
      GapBehind(gaps, ws);
      SpreadIs(gaps, ws);
      assert ws == [ws[0]] + ws[1..];
      FirstOfSpread(gaps[0], ws[0], Spread(gaps[1..], ws[1..]));
    }
  }

  lemma {:induction false} SpreadIs(gaps: seq<string>, ws: seq<string>)
    requires |gaps| == |ws| + 1 && ws != []
    ensures Spread(gaps, ws) == gaps[0] + ws[0] + Spread(gaps[1..], ws[1..])
  {
  }

  lemma {:induction false} NothingSpread(gaps: seq<string>)
    requires |gaps| == 1 && OnlyBlanks(gaps[0])
    ensures Words(Spread(gaps, []), 0) == []
  {
    BlankEndIs(gaps[0], |gaps[0]|);
  }

  lemma {:induction false} FirstOfSpread(gap: string, w: string, rest: string)
    requires OnlyBlanks(gap) && w != "" && ' ' !in w && '\t' !in w && (rest != "" ==> IsBlank(rest[0]))
    ensures Words(gap + w + rest, 0) == [w] + Words(rest, 0)
  {
    hide *;
    var s, i, e := gap + w + rest, |gap|, |gap| + |w|;
    BlanksInFront(gap, w, rest);
    TokenBehind(gap, w, rest);
    WordsOfSuffix(s, e, 0);
    WordsUnfold(s, 0);
    assert s[e..] == rest && s[i..e] == w;
  }

  lemma {:induction false} BlanksInFront(gap: string, w: string, rest: string)
    requires OnlyBlanks(gap) && w != "" && ' ' !in w && '\t' !in w
    ensures BlankEnd(gap + w + rest, 0) == |gap|
  {
    var s := gap + w + rest;
    assert s[|gap|] == w[0];
    assert forall k :: 0 <= k < |gap| ==> s[k] == gap[k];
    hide BlankEnd;
    BlankEndIs(s, |gap|);
  }

  lemma {:induction false} TokenBehind(gap: string, w: string, rest: string)
    requires w != "" && ' ' !in w && '\t' !in w && (rest != "" ==> IsBlank(rest[0]))
    ensures TokenEnd(gap + w + rest, |gap|) == |gap| + |w|
  {
    var s := gap + w + rest;
    assert forall k :: |gap| <= k < |gap| + |w| ==> s[k] == w[k - |gap|];
    hide TokenEnd;
    TokenEndOfPrefix(s, |gap|, |gap| + |w|);
  }

  predicate OnlyBlanks(gap: string) {
    forall k :: 0 <= k < |gap| ==> gap[k] in " \t"
  }

  lemma {:induction false} BlankEndIs(s: string, i: nat)
    requires i <= |s| && (i < |s| ==> !IsBlank(s[i])) && forall k :: 0 <= k < i ==> IsBlank(s[k])
    ensures BlankEnd(s, 0) == i
  {
  }

  lemma {:induction false} GapBehind(gaps: seq<string>, ws: seq<string>)
    requires |gaps| == |ws| + 1 && ws != []
    requires forall k :: 0 <= k < |gaps| ==> OnlyBlanks(gaps[k]) && (0 < k < |ws| ==> gaps[k] != "")
    ensures var rest := Spread(gaps[1..], ws[1..]); rest != "" ==> IsBlank(rest[0])
  {
    assert OnlyBlanks(gaps[1]);
  }
}
