/** A command line for the shell: escaped, put behind "SHELL -c", and split again. */
module ShellArgv {
  import opened Wrappers
  import opened Tokens
  import opened ShellSyntax
  import opened ShellScan
  import opened ShellMeaning
  import opened ShellWords
  import opened ShellNeeds

  // ----- escaping

  predicate NeedsEscape(c: char) {
    c == '\\' || c == '\'' || c == '"' || IsSpace(c) || ShChar(c)
  }

  /** What follows a backslash-newline; a tab is dropped there. */
  function AfterContinuation(s: string): (r: string)
    requires |s| >= 2
    ensures |r| < |s|
  {
    if |s| > 2 && s[2] == '\t' then s[3..] else s[2..]
  }

  predicate Continues(s: string) {
    |s| > 1 && s[0] == '\\' && s[1] == '\n'
  }

  /** The escaped form; with `multi` it ends before the first bare newline. */
  function Esc(s: string, multi: bool): (e: string)
    ensures |e| <= 2 * |s|
    ensures e != "" ==> !IsBlank(e[0])
    decreases |s|
  {
    if s == "" || (multi && s[0] == '\n') then ""
    else if Continues(s) then "\\\\\n" + Esc(AfterContinuation(s), multi)
    else (if NeedsEscape(s[0]) then ['\\', s[0]] else [s[0]]) + Esc(s[1..], multi)
  }

  /** The text the shell is to be given: bare newlines end it or, without `multi`, get lost. */
  function Text(s: string, multi: bool): string
    decreases |s|
  {
    if s == "" || (multi && s[0] == '\n') then ""
    else if Continues(s) then "\\\n" + Text(AfterContinuation(s), multi)
    else (if s[0] == '\n' then "" else [s[0]]) + Text(s[1..], multi)
  }

  /** Up to the first newline that no backslash precedes. */
  function CutAt(s: string, i: nat): (n: nat)
    requires i <= |s|
    ensures i <= n <= |s|
    ensures n < |s| ==> s[n] == '\n' && (n > 0 ==> s[n - 1] != '\\')
    ensures forall k :: i <= k < n && s[k] == '\n' ==> k > 0 && s[k - 1] == '\\'
    decreases |s| - i
  {
    if i == |s| || (s[i] == '\n' && (i == 0 || s[i - 1] != '\\')) then i else CutAt(s, i + 1)
  }

  /** Piece by piece: other text is kept, a backslash-newline loses the one tab behind it, and a bare newline
      ends the text or is left out. */
  lemma {:induction false} TextPieces(u: string, rest: string, multi: bool)
    requires '\\' !in u && '\n' !in u
    ensures Text(u + rest, multi) == u + Text(rest, multi)
    ensures Text("\\\n\t" + rest, multi) == "\\\n" + Text(rest, multi)
    ensures rest == "" || rest[0] != '\t' ==> Text("\\\n" + rest, multi) == "\\\n" + Text(rest, multi)
    ensures rest != "" && rest[0] != '\n' ==> Text("\\" + rest, multi) == "\\" + Text(rest, multi)
    ensures Text("\n" + rest, multi) == if multi then "" else Text(rest, multi)
  {
    hide *;
    TextKept(u, rest, multi);
    TextContinued("\\\n\t" + rest, rest, multi);
    if rest == "" || rest[0] != '\t' {
      TextContinued("\\\n" + rest, rest, multi);
    }
    if rest != "" && rest[0] != '\n' {
      TextNext('\\', rest, multi);
    }
    TextNext('\n', rest, multi);
    assert "\\" + rest == ['\\'] + rest && "\n" + rest == ['\n'] + rest;
    assert "" + Text(rest, multi) == Text(rest, multi);
  }

  lemma {:induction false} TextKept(u: string, rest: string, multi: bool)
    requires '\\' !in u && '\n' !in u
    ensures Text(u + rest, multi) == u + Text(rest, multi)
    decreases |u|
  {
    hide *;
    if u == "" {
      assert u + rest == rest && u + Text(rest, multi) == Text(rest, multi);
    } else {
      TextKept(u[1..], rest, multi);
      assert u + rest == [u[0]] + (u[1..] + rest);
      TextNext(u[0], u[1..] + rest, multi);
      assert [u[0]] + (u[1..] + Text(rest, multi)) == u + Text(rest, multi);
    }
  }

  lemma {:induction false} TextNext(c: char, rest: string, multi: bool)
    requires c != '\\' || rest == "" || rest[0] != '\n'
    ensures Text([c] + rest, multi) == if c == '\n' then (if multi then "" else "" + Text(rest, multi)) else [c] + Text(rest, multi)
  {
    assert ([c] + rest)[1..] == rest;
  }

  lemma {:induction false} TextContinued(s: string, rest: string, multi: bool)
    requires s == "\\\n\t" + rest || (s == "\\\n" + rest && (rest == "" || rest[0] != '\t'))
    ensures Text(s, multi) == "\\\n" + Text(rest, multi)
  {
    assert Continues(s) && AfterContinuation(s) == rest;
  }

  /** Leaves out each tab behind a backslash-newline. */
  function WithoutTabs(s: string, i: nat): string
    requires i <= |s|
    decreases |s| - i
  {
    if i == |s| then ""
    else (if i >= 2 && s[i] == '\t' && s[i - 1] == '\n' && s[i - 2] == '\\' then "" else [s[i]]) + WithoutTabs(s, i + 1)
  }

  /** A position at which the escaping loop can stand: not inside a backslash-newline. */
  predicate Between(line: string, p: nat) {
    p <= |line| &&
    (p < |line| && p > 0 && line[p] == '\n' ==> line[p - 1] != '\\') &&
    (p < |line| && p > 1 && line[p] == '\t' && line[p - 1] == '\n' ==> line[p - 2] != '\\')
  }

  predicate ContinuesAt(line: string, p: nat) {
    At(line, p) == '\\' && At(line, p + 1) == '\n'
  }

  /** The escaping, seen from a position. */
  lemma {:induction false} EscAt(line: string, p: nat, multi: bool)
    requires p < |line|
    ensures multi && line[p] == '\n' ==> Esc(line[p..], multi) == ""
    ensures ContinuesAt(line, p) ==> AfterTab(line, p + 2) <= |line| && Esc(line[p..], multi) == "\\\\\n" + Esc(line[AfterTab(line, p + 2)..], multi)
    ensures !(multi && line[p] == '\n') && !ContinuesAt(line, p) ==>
              Esc(line[p..], multi) == (if NeedsEscape(line[p]) then ['\\', line[p]] else [line[p]]) + Esc(line[p + 1..], multi)
  {
    AtSuffix(line, p);
  }

  lemma {:induction false} TextAt(line: string, p: nat, multi: bool)
    requires p < |line|
    ensures multi && line[p] == '\n' ==> Text(line[p..], multi) == ""
    ensures ContinuesAt(line, p) ==> AfterTab(line, p + 2) <= |line| && Text(line[p..], multi) == "\\\n" + Text(line[AfterTab(line, p + 2)..], multi)
    ensures !(multi && line[p] == '\n') && !ContinuesAt(line, p) ==>
              Text(line[p..], multi) == (if line[p] == '\n' then "" else [line[p]]) + Text(line[p + 1..], multi)
  {
    AtSuffix(line, p);
  }

  lemma {:induction false} AtSuffix(line: string, p: nat)
    requires p < |line|
    ensures line[p..][0] == line[p] && line[p..][1..] == line[p + 1..]
    ensures Continues(line[p..]) <==> ContinuesAt(line, p)
    ensures ContinuesAt(line, p) ==> AfterTab(line, p + 2) <= |line| && AfterContinuation(line[p..]) == line[AfterTab(line, p + 2)..]
  {
  }

  lemma {:induction false} BetweenNext(line: string, p: nat)
    requires p < |line| && Between(line, p)
    ensures if ContinuesAt(line, p) then Between(line, AfterTab(line, p + 2)) else Between(line, p + 1)
  {
  }

  /** The cut is where the loop ends. */
  lemma {:induction false} CutStep(line: string, p: nat)
    requires p < |line| && Between(line, p)
    ensures line[p] == '\n' <==> CutAt(line, p) == p
    ensures ContinuesAt(line, p) ==> AfterTab(line, p + 2) <= |line| && CutAt(line, p) == CutAt(line, AfterTab(line, p + 2))
    ensures line[p] != '\n' ==> CutAt(line, p) == CutAt(line, p + 1)
  {
    if ContinuesAt(line, p) {
      assert CutAt(line, p + 1) == CutAt(line, p + 2);
    }
  }

  /** Up to its first bare newline, the text is the line without the tabs behind backslash-newlines. */
  lemma {:induction false} TextMeaning(line: string, p: nat)
    requires Between(line, p)
    ensures Text(line[p..], true) == WithoutTabs(line[..CutAt(line, p)], p)
    decreases |line| - p
  {
    hide Text;
    if p == |line| {
      TextNothing(line[p..]);
    } else {
      TextAt(line, p, true);
      BetweenNext(line, p);
      CutStep(line, p);
      if line[p] != '\n' {
        if ContinuesAt(line, p) {
          var q := AfterTab(line, p + 2);
          TextMeaning(line, q);
          var t := line[..CutAt(line, q)];
          assert q <= |t|;
          ContinuationKept(t, p, q);
        } else {
          TextMeaning(line, p + 1);
        }
      }
    }
  }

  /** Where newlines do not end the line, the text is right exactly if there is no bare newline. */
  lemma {:induction false} BareNewlineLost(line: string)
    ensures Text(line, false) == WithoutTabs(line, 0) <==> CutAt(line, 0) == |line|
  {
    assert line[0..] == line;
    ShorterText(line, 0);
  }

  lemma {:induction false} ShorterText(line: string, p: nat)
    requires Between(line, p)
    ensures |Text(line[p..], false)| <= |WithoutTabs(line, p)|
    ensures CutAt(line, p) < |line| ==> |Text(line[p..], false)| < |WithoutTabs(line, p)|
    ensures CutAt(line, p) == |line| ==> Text(line[p..], false) == WithoutTabs(line, p)
    decreases |line| - p
  {
    hide Text, WithoutTabs, CutAt;
    CutNothing(line);
    if p == |line| {
      TextNothing(line[p..]);
      TabsNothing(line);
    } else {
      TextAt(line, p, false);
      BetweenNext(line, p);
      CutStep(line, p);
      if ContinuesAt(line, p) {
        var q := AfterTab(line, p + 2);
        ShorterText(line, q);
        ContinuationKept(line, p, q);
      } else {
        ShorterText(line, p + 1);
        TabsStep(line, p);
        assert !DroppedTab(line, p);
      }
    }
  }

  lemma {:induction false} TabsNothing(s: string)
    ensures WithoutTabs(s, |s|) == ""
  {
  }

  lemma {:induction false} TextNothing(s: string)
    requires s == ""
    ensures Text(s, true) == "" && Text(s, false) == ""
  {
  }

  lemma {:induction false} ContinuationKept(t: string, p: nat, q: nat)
    requires p + 2 <= q <= |t| && t[p] == '\\' && t[p + 1] == '\n' && q == AfterTab(t, p + 2)
    ensures WithoutTabs(t, p) == "\\\n" + WithoutTabs(t, q)
  {
    hide WithoutTabs;
    TabsStep(t, p);
    TabsStep(t, p + 1);
    if q == p + 3 {
      TabsStep(t, p + 2);
    }
    assert ['\\'] + (['\n'] + WithoutTabs(t, q)) == "\\\n" + WithoutTabs(t, q);
  }

  predicate DroppedTab(t: string, i: nat)
    requires i < |t|
  {
    i >= 2 && t[i] == '\t' && t[i - 1] == '\n' && t[i - 2] == '\\'
  }

  lemma {:induction false} TabsStep(t: string, i: nat)
    requires i < |t|
    ensures WithoutTabs(t, i) == (if DroppedTab(t, i) then "" else [t[i]]) + WithoutTabs(t, i + 1)
    ensures DroppedTab(t, i) ==> WithoutTabs(t, i) == WithoutTabs(t, i + 1)
  {
  }

  /** Escapes one character, or one backslash-newline. */
  method EscapeOne(line: string, from: nat, multi: bool) returns (piece: string, p: nat)
    requires from < |line| && Between(line, from) && !(multi && line[from] == '\n')
    ensures from < p <= |line| && Between(line, p) && Esc(line[from..], multi) == piece + Esc(line[p..], multi)
    ensures line[from] != '\n' ==> CutAt(line, p) == CutAt(line, from)
  {
    hide Esc, CutAt, Between;
    p := from;
    EscAt(line, p, multi);
    BetweenNext(line, p);
    CutStep(line, p);
    if line[p] == '\\' && At(line, p + 1) == '\n' {
      piece := "\\\\\n";
      p := p + 1;
      if At(line, p + 1) == '\t' {
        p := p + 1;
      }
    } else {
      piece := "";
      if line[p] == '\\' || line[p] == '\'' || line[p] == '"' || IsSpace(line[p]) || ShChar(line[p]) {
        piece := "\\";
      }
      piece := piece + [line[p]];
    }
    p := p + 1;
  }

  /** The loop that escapes; it stops before the first bare newline. */
  method EscapeLine(line: string, multi: bool) returns (esc: string, rest: Option<nat>)
    ensures esc == Esc(line, multi) && |esc| <= 2 * |line|
    ensures rest == if multi && CutAt(line, 0) < |line| then Some(CutAt(line, 0)) else None
  {
    hide *;
    esc, rest := "", None;
    var p := 0;
    assert line[0..] == line;
    assert Between(line, 0) by { BetweenStart(line); }
    while p < |line|
      invariant Between(line, p) && p <= |line| && esc + Esc(line[p..], multi) == Esc(line, multi)
      invariant multi ==> CutAt(line, p) == CutAt(line, 0)
      decreases |line| - p
    {
      CutStep(line, p);
      if multi && line[p] == '\n' {
        EscAt(line, p, multi);
        rest := Some(p);
        return;
      }
      ghost var before, from := esc, p;
      var piece;
      piece, p := EscapeOne(line, p, multi);
      EscapedSoFar(before, piece, Esc(line[p..], multi));
      esc := esc + piece;
    }
    EscNothing(line[p..], multi);
    CutNothing(line);
  }

  lemma {:induction false} EscapedSoFar(before: string, piece: string, rest: string)
    ensures before + (piece + rest) == before + piece + rest
  {
  }

  lemma {:induction false} BetweenStart(line: string)
    ensures Between(line, 0)
  {
  }

  lemma {:induction false} EscNothing(s: string, multi: bool)
    requires s == ""
    ensures Esc(s, multi) == ""
  {
  }

  lemma {:induction false} CutNothing(line: string)
    ensures CutAt(line, |line|) == |line|
  {
  }

  // ----- splitting what was escaped

  /** Characters that the scan just copies. */
  predicate Plain(c: char) {
    !NeedsEscape(c) && c != '=' && c != '\0'
  }

  predicate AllPlain(s: string) {
    forall k :: 0 <= k < |s| ==> Plain(s[k])
  }

  lemma {:induction false} PlainTurn(line: string, multi: bool, shell: string, s: Scan)
    requires s.p < |line| && s.quote.None? && Plain(line[s.p])
    ensures Run(line, multi, shell, s) == Run(line, multi, shell, s.(p := s.p + 1, cur := s.cur + [line[s.p]]))
  {
    RunTurn(line, multi, shell, s);
    hide Run;
  }

  /** A run of plain characters is copied. */
  lemma {:induction false} PlainRun(line: string, multi: bool, shell: string, s: Scan, w: string)
    requires s.p + |w| <= |line| && s.quote.None? && AllPlain(w) && line[s.p..s.p + |w|] == w
    ensures Run(line, multi, shell, s) == Run(line, multi, shell, s.(p := s.p + |w|, cur := s.cur + w))
    decreases |w|
  {
    hide Run, Plain;
    if w == "" {
      assert s.cur + w == s.cur;
    } else {
      assert line[s.p] == line[s.p..s.p + |w|][0] == w[0];
      PlainTurn(line, multi, shell, s);
      var t := s.(p := s.p + 1, cur := s.cur + [w[0]]);
      assert line[t.p..t.p + |w[1..]|] == w[1..];
      PlainRun(line, multi, shell, t, w[1..]);
      assert t.cur + w[1..] == s.cur + w;
    }
  }

  /** A blank ends a word that needs no attention. */
  lemma {:induction false} BlankTurn(line: string, multi: bool, shell: string, s: Scan)
    requires s.p < |line| && s.quote.None? && line[s.p] == ' ' && s.p + 1 < |line| && !IsBlank(line[s.p + 1])
    requires (s.seenNonequals || !s.hasEquals) && (s.words == [] ==> s.cur !in SH_CMDS)
    ensures Run(line, multi, shell, s) == Run(line, multi, shell, Scan(s.p + 1, s.words + [s.cur], "", None, false, true, false))
  {
    RunTurn(line, multi, shell, s);
    OrdinaryChars();
    hide Run, ShChar, Quoted;
    assert BlankEnd(line, s.p) == BlankEnd(line, s.p + 1) == s.p + 1;
    if s.words == [] {
      assert (s.words + [s.cur])[0] == s.cur;
    }
  }

  /** In a line that begins with the shell, a backslash quotes the next character. */
  lemma {:induction false} EscapedTurn(line: string, shell: string, s: Scan)
    requires s.p + 1 < |line| && s.quote.None? && line[s.p] == '\\' && line[s.p + 1] != '\n' && line[s.p + 1] != '\0' && shell <= line
    ensures Run(line, false, shell, s) == Run(line, false, shell, s.(p := s.p + 2, cur := s.cur + [line[s.p + 1]]))
  {
    BackslashTurn(line, false, shell, s);
    assert Backslash(line, shell, s) == s.(p := s.p + 2, cur := s.cur + [line[s.p + 1]]);
    hide *;
    RunTurn(line, false, shell, s);
  }

  lemma {:induction false} NewlineTurn(line: string, shell: string, s: Scan)
    requires s.p < |line| && s.quote.None? && line[s.p] == '\n'
    ensures Run(line, false, shell, s) == Run(line, false, shell, s.(p := s.p + 1, cur := s.cur + "\n"))
  {
    RunTurn(line, false, shell, s);
    OrdinaryChars();
    hide Run, ShChar, Quoted;
  }

  /** An escaped newline is a continuation, and disappears. */
  lemma {:induction false} LostNewline(line: string, shell: string, s: Scan)
    requires s.p + 1 < |line| && s.quote.None? && line[s.p] == '\\' && line[s.p + 1] == '\n'
    requires s.p + 2 < |line| ==> !IsBlank(line[s.p + 2])
    ensures Run(line, false, shell, s) == Run(line, false, shell, s.(p := s.p + 2))
  {
    assert JoinsAt(line, s) && AfterTab(line, s.p + 2) == s.p + 2;
    hide *;
    JoinedTurn(line, false, shell, s);
    BlankEndAt(line, s.p + 2);
    RunTurn(line, false, shell, s);
  }

  /** Behind the first word an equals sign is nothing special. */
  lemma {:induction false} EqualsTurn(line: string, shell: string, s: Scan)
    requires s.p < |line| && s.quote.None? && line[s.p] == '=' && s.seenNonequals
    ensures Run(line, false, shell, s) == Run(line, false, shell, s.(p := s.p + 1, cur := s.cur + "=", hasEquals := true))
  {
    RunTurn(line, false, shell, s);
    OrdinaryChars();
    hide Run, ShChar, Quoted;
  }

  lemma {:induction false} CopiedNewline(line: string, shell: string, s: Scan)
    requires s.p + 2 < |line| && s.quote.None? && line[s.p] == '\\' && line[s.p + 1] == '\\' && line[s.p + 2] == '\n' && shell <= line
    ensures Run(line, false, shell, s) == Run(line, false, shell, s.(p := s.p + 3, cur := s.cur + "\\\n"))
  {
    hide Run;
    EscapedTurn(line, shell, s);
    NewlineTurn(line, shell, s.(p := s.p + 2, cur := s.cur + [line[s.p + 1]]));
    assert s.cur + [line[s.p + 1]] + "\n" == s.cur + "\\\n";
  }

  function Ended(words: seq<string>, w: string, lastEmpty: bool): Outcome {
    Words(words + if w != "" || lastEmpty then [w] else [], None)
  }

  /** The scan is at the escaped form of the line from `i` on. */
  predicate AtEscaped(nl: string, s: Scan, line: string, i: nat, multi: bool) {
    s.p <= |nl| && i <= |line| && nl[s.p..] == Esc(line[i..], multi) &&
    s.quote.None? && s.seenNonequals && |s.words| >= 2
  }

  /** Scanning what was escaped gives the text back, in one word. */
  lemma {:induction false} EscRun(nl: string, shell: string, s: Scan, line: string, i: nat, multi: bool)
    requires AtEscaped(nl, s, line, i, multi) && shell <= nl && '\0' !in line
    ensures Run(nl, false, shell, s) == Ended(s.words, s.cur + Text(line[i..], multi), s.lastEmpty)
    decreases |line| - i
  {
    hide Run, Esc, Text;
    if i == |line| || (multi && line[i] == '\n') {
      EscEnd(line, i, multi);
      RunEnd(nl, false, shell, s);
      assert s.cur + "" == s.cur;
    } else {
      TextAt(line, i, multi);
      var t, j := EscOne(nl, shell, s, line, i, multi);
      EscRun(nl, shell, t, line, j, multi);
      assert s.cur + (t.cur[|s.cur|..] + Text(line[j..], multi)) == t.cur + Text(line[j..], multi);
    }
  }

  lemma {:induction false} EscEnd(line: string, i: nat, multi: bool)
    requires i <= |line| && (i == |line| || (multi && line[i] == '\n'))
    ensures Esc(line[i..], multi) == "" && Text(line[i..], multi) == ""
  {
  }

  lemma {:induction false} EscStartsUnblank(line: string, i: nat, multi: bool)
    requires i <= |line|
    ensures Esc(line[i..], multi) != "" ==> !IsBlank(Esc(line[i..], multi)[0])
  {
  }

  /** A character that any shell gets back: one that is not escaped, or a bare newline, which is lost. */
  predicate Easy(line: string, i: nat)
    requires i < |line|
  {
    (NeedsEscape(line[i]) ==> line[i] == '\n') && !ContinuesAt(line, i)
  }

  lemma {:induction false} EasyOne(nl: string, shell: string, s: Scan, line: string, i: nat, multi: bool) returns (t: Scan)
    requires AtEscaped(nl, s, line, i, multi) && '\0' !in line && i < |line| && !(multi && line[i] == '\n') && Easy(line, i)
    ensures AtEscaped(nl, t, line, i + 1, multi) && t.words == s.words && t.lastEmpty == s.lastEmpty
    ensures t.cur == s.cur + (if line[i] == '\n' then "" else [line[i]])
    ensures Run(nl, false, shell, s) == Run(nl, false, shell, t)
  {
    hide Run, Esc, NeedsEscape, IsSpace;
    EscAt(line, i, multi);
    NewlinesAreEscaped(line[i]);
    var e := Esc(line[i..], multi);
    if line[i] == '\n' {
      assert e[..2] == "\\\n" && e[2..] == Esc(line[i + 1..], multi);
      Tail(nl, s.p, e, 2);
      EscStartsUnblank(line, i + 1, multi);
      LostNewline(nl, shell, s);
      t := s.(p := s.p + 2);
    } else {
      assert e[..1] == [line[i]] && e[1..] == Esc(line[i + 1..], multi);
      Tail(nl, s.p, e, 1);
      if line[i] == '=' {
        EqualsTurn(nl, shell, s);
        t := s.(p := s.p + 1, cur := s.cur + "=", hasEquals := true);
      } else {
        PlainTurn(nl, false, shell, s);
        t := s.(p := s.p + 1, cur := s.cur + [line[i]]);
      }
    }
  }

  /** One step of it. */
  lemma {:induction false} EscOne(nl: string, shell: string, s: Scan, line: string, i: nat, multi: bool) returns (t: Scan, j: nat)
    requires AtEscaped(nl, s, line, i, multi) && shell <= nl && '\0' !in line && i < |line| && !(multi && line[i] == '\n')
    ensures i < j && AtEscaped(nl, t, line, j, multi)
    ensures t.words == s.words && t.lastEmpty == s.lastEmpty && s.cur <= t.cur
    ensures Text(line[i..], multi) == t.cur[|s.cur|..] + Text(line[j..], multi)
    ensures Run(nl, false, shell, s) == Run(nl, false, shell, t)
  {
    hide Run, Esc, Text, NeedsEscape, IsSpace;
    EscAt(line, i, multi);
    TextAt(line, i, multi);
    var e := Esc(line[i..], multi);
    if ContinuesAt(line, i) {
      j := AfterTab(line, i + 2);
      assert e[..3] == "\\\\\n" && e[3..] == Esc(line[j..], multi);
      assert nl[s.p..][..3] == e[..3];
      Tail(nl, s.p, e, 3);
      CopiedNewline(nl, shell, s);
      t := s.(p := s.p + 3, cur := s.cur + "\\\n");
    } else if Easy(line, i) {
      j := i + 1;
      t := EasyOne(nl, shell, s, line, i, multi);
    } else {
      j := i + 1;
      assert e[..2] == ['\\', line[i]] && e[2..] == Esc(line[j..], multi);
      Tail(nl, s.p, e, 2);
      EscapedTurn(nl, shell, s);
      t := s.(p := s.p + 2, cur := s.cur + [line[i]]);
    }
  }

  lemma {:induction false} NewlinesAreEscaped(c: char)
    ensures c == '\n' ==> NeedsEscape(c)
  {
  }

  lemma {:induction false} Tail(nl: string, p: nat, e: string, n: nat)
    requires p <= |nl| && nl[p..] == e && n <= |e|
    ensures p + n <= |nl| && nl[p + n..] == e[n..]
    ensures forall k :: 0 <= k < n ==> nl[p + k] == e[k]
  {
    assert forall k :: 0 <= k < |e| ==> nl[p..][k] == nl[p + k];
  }

  // ----- the command line with the shell in front

  /** A shell whose name is one plain word. */
  predicate PlainShell(shell: string) {
    shell != "" && AllPlain(shell) && shell !in SH_CMDS
  }

  const MINUS_C := " -c "

  /** The two words in front. */
  lemma {:induction false} ShellAndFlag(shell: string, rest: string, sh: string)
    requires PlainShell(shell) && rest != "" && !IsBlank(rest[0])
    ensures var nl := shell + MINUS_C + rest;
            Run(nl, false, sh, START) == Run(nl, false, sh, Scan(|shell| + 4, [shell, "-c"], "", None, false, true, false))
  {
    hide Run, Plain;
    var nl := shell + MINUS_C + rest;
    var n := |shell|;
    assert nl[0..n] == shell;
    PlainRun(nl, false, sh, START, shell);
    assert "" + shell == shell;
    var s1 := Scan(n, [], shell, None, false, false, false);
    BlankTurn(nl, false, sh, s1);
    var s2 := Scan(n + 1, [shell], "", None, false, true, false);
    assert [] + [shell] == [shell];
    assert nl[n + 1..n + 3] == "-c";
    FlagIsPlain();
    PlainRun(nl, false, sh, s2, "-c");
    assert "" + "-c" == "-c";
    var s3 := Scan(n + 3, [shell], "-c", None, false, true, false);
    assert nl[n + 4] == rest[0];
    BlankTurn(nl, false, sh, s3);
    assert [shell] + ["-c"] == [shell, "-c"];
  }

  lemma {:induction false} FlagIsPlain()
    ensures AllPlain("-c")
  {
    OrdinaryChars();
    hide ShChar;
  }

  /** With its own shell in front, an escaped line is split into the shell, "-c" and the text. */
  lemma {:induction false} ShellLine(shell: string, line: string, multi: bool)
    requires PlainShell(shell) && '\0' !in line && Esc(line, multi) != ""
    ensures Run(shell + MINUS_C + Esc(line, multi), false, shell, START) == Ended([shell, "-c"], Text(line, multi), false)
  {
    hide Run, Esc, Text;
    var nl := shell + MINUS_C + Esc(line, multi);
    assert line[0..] == line;
    EscStartsUnblank(line, 0, multi);
    ShellAndFlag(shell, Esc(line, multi), shell);
    var s := Scan(|shell| + 4, [shell, "-c"], "", None, false, true, false);
    assert nl[s.p..] == Esc(line, multi);
    EscRun(nl, shell, s, line, 0, multi);
    assert "" + Text(line, multi) == Text(line, multi);
  }

  // ----- the whole construction

  /** The shell is the default one, and no other separators are set. */
  predicate UsualShell(shell: Option<string>, ifs: Option<string>, default: string) {
    (shell == None || shell == Some(default)) && (ifs.Some? ==> forall k :: 0 <= k < |ifs.value| ==> ifs.value[k] in {' ', '\t', '\n'})
  }

  ghost predicate UsesShell(line: string, multi: bool, shell: Option<string>, ifs: Option<string>, default: string) {
    !UsualShell(shell, ifs, default) || Run(SkipBlanks(line), multi, default, START).NeedShell?
  }

  /** How often the construction still may start again. */
  ghost function Stage(line: string, multi: bool, shell: Option<string>, ifs: Option<string>, default: string): nat {
    if !(shell == None || shell == Some(default)) then 2
    else if UsualShell(shell, ifs, default) && (SkipBlanks(line) == "" || Run(SkipBlanks(line), multi, default, START).Words?) then 0
    else 1
  }

  function Argv(words: seq<string>): Option<seq<string>> {
    if words == [] then None else Some(words)
  }

  /** What the usual shell is given. */
  function ShellCommand(default: string, line: string, multi: bool): Option<seq<string>> {
    if Esc(line, multi) == "" then None
    else Some([default, "-c"] + if Text(line, multi) == "" then [] else [Text(line, multi)])
  }

  lemma {:induction false} UsualIs(shell: Option<string>, ifs: Option<string>, default: string)
    ensures UsualShell(shell, ifs, default) <==>
      (shell == None || shell == Some(default)) && (ifs == None || forall k :: 0 <= k < |ifs.value| ==> ifs.value[k] in " \t\n")
  {
  }

  /** A line that needs the shell is given to it. */
  lemma {:induction false} GivenToShell(default: string, line: string, multi: bool)
    requires '\0' !in line
    ensures NeedsShell(line, multi, default <= line, 0, None) || BeginsWithBuiltin(line, multi) ==>
      !Run(line, multi, default, START).Words? && ShellCommand(default, line, multi) == Some([default, "-c", Text(line, multi)])
  {
    hide Run, Builtin;
    if NeedsShell(line, multi, default <= line, 0, None) {
      NeedsMet(line, multi, default, START);
      HasText(line, multi);
    }
    if w :| IsFirst(line, multi, w) && Builtin(w) {
      BuiltinGoesToShell(line, multi, default, w);
      NothingQuoted(w);
      assert line[0] == w[0];
      HasText(line, multi);
    }
  }

  lemma {:induction false} HasText(line: string, multi: bool)
    requires line != "" && line[0] != '\n'
    ensures Esc(line, multi) != "" && Text(line, multi) != ""
    ensures forall default: string :: ShellCommand(default, line, multi) == Some([default, "-c", Text(line, multi)])
  {
    forall default: string
      ensures ShellCommand(default, line, multi) == Some([default, "-c", Text(line, multi)])
    {
      assert [default, "-c"] + [Text(line, multi)] == [default, "-c", Text(line, multi)];
    }
  }

  /** What another shell is given: the words of "SHELL -c" and the escaped line, or, if that needs a
      shell, the default shell is given it as a whole. */
  function OtherCommand(shell: string, line: string, multi: bool, default: string): Option<seq<string>> {
    if Esc(line, multi) == "" then None
    else
      var nl := SkipBlanks(shell + MINUS_C + Esc(line, multi));
      var o := Run(nl, false, default, START);
      if o.Words? then Argv(o.words) else ShellCommand(default, nl, false)
  }

  lemma {:induction false} NotAllBlank(shell: string, esc: string)
    ensures SkipBlanks(shell + MINUS_C + esc) != ""
  {
    var nl := shell + MINUS_C + esc;
    assert nl[|shell| + 1] == '-';
    if BlankEnd(nl, 0) == |nl| {
      assert false;
    }
  }

  /** The argument list for a command line; None for an empty one.  The answer `rest` is where the
      line was left off. */
  method ConstructArgv(line: string, multi: bool, shell: Option<string>, ifs: Option<string>, default: string)
    returns (argv: Option<seq<string>>, rest: Option<nat>)
    requires PlainShell(default) && '\0' !in line && (shell.Some? ==> '\0' !in shell.value)
    ensures SkipBlanks(line) == "" ==> argv == None && rest == None
    ensures UsualShell(shell, ifs, default) && SkipBlanks(line) != "" ==>
      var o := Run(SkipBlanks(line), multi, default, START);
      argv == if o.Words? then Argv(o.words) else ShellCommand(default, SkipBlanks(line), multi)
    ensures (shell == None || shell == Some(default)) && !UsualShell(shell, ifs, default) && SkipBlanks(line) != "" ==>
      argv == ShellCommand(default, SkipBlanks(line), multi)
    ensures shell.Some? && shell.value != default && SkipBlanks(line) != "" ==>
      argv == OtherCommand(shell.value, SkipBlanks(line), multi, default)
    ensures UsualShell(shell, ifs, default) && SkipBlanks(line) != "" && Run(SkipBlanks(line), multi, default, START).Words? ==>
      rest == Ahead(BlankEnd(line, 0), Run(SkipBlanks(line), multi, default, START).rest)
    ensures UsualShell(shell, ifs, default) <==>
      (shell == None || shell == Some(default)) && (ifs == None || forall k :: 0 <= k < |ifs.value| ==> ifs.value[k] in " \t\n")
    ensures var l := SkipBlanks(line);
      UsualShell(shell, ifs, default) && (NeedsShell(l, multi, default <= l, 0, None) || BeginsWithBuiltin(l, multi)) ==>
        argv == Some([default, "-c", Text(l, multi)])
    ensures multi && UsesShell(line, multi, shell, ifs, default) && CutAt(SkipBlanks(line), 0) < |SkipBlanks(line)| ==>
      rest == Some(BlankEnd(line, 0) + CutAt(SkipBlanks(line), 0))
    decreases Stage(line, multi, shell, ifs, default)
  {
    hide Run, Esc, Text, CutAt, Stage, UsualShell, PlainShell, Written, Ended, NeedsShell, BeginsWithBuiltin;
    var start := NextToken(line, 0);
    var l := line[start..];
    GivenToShell(default, l, multi);
    UsualIs(shell, ifs, default);
    rest := None;
    if l == "" {
      return None, rest;
    }
    PlainHasNoNull(default);
    StageStart(line, multi, shell, ifs, default);
    var sh, slow := ChooseShell(shell, ifs, default);
    if !slow {
      var o := FastPath(l, multi, sh);
      rest := Ahead(start, o.rest);
      if o.Words? {
        return Argv(o.words), rest;
      }
    }
    var esc, r := EscapeLine(l, multi);
    if r.Some? {
      rest := Ahead(start, r);
    }
    if esc == "" {
      return None, rest;
    }
    NewLineStage(sh, l, multi, default);
    NotAllBlank(sh, esc);
    var again;
    argv, again := ConstructArgv(sh + MINUS_C + esc, false, None, None, default);
  }

  lemma {:induction false} PlainHasNoNull(shell: string)
    requires PlainShell(shell)
    ensures '\0' !in shell
  {
  }

  function Ahead(start: nat, rest: Option<nat>): Option<nat> {
    if rest.Some? then Some(start + rest.value) else None
  }

  lemma {:induction false} StageStart(line: string, multi: bool, shell: Option<string>, ifs: Option<string>, default: string)
    requires SkipBlanks(line) != ""
    ensures UsualShell(shell, ifs, default) ==> shell == None || shell == Some(default)
    ensures !UsualShell(shell, ifs, default) || Run(SkipBlanks(line), multi, default, START).NeedShell? ==>
              Stage(line, multi, shell, ifs, default) >= if shell == None || shell == Some(default) then 1 else 2
  {
    hide Run;
  }

  /** Which shell it is, and whether it has to be used in any case. */
  method ChooseShell(shell: Option<string>, ifs: Option<string>, default: string) returns (sh: string, slow: bool)
    ensures sh == if shell.Some? then shell.value else default
    ensures slow == !UsualShell(shell, ifs, default)
  {
    slow := false;
    sh := default;
    if shell.Some? {
      sh := shell.value;
      slow := sh != default;
    }
    if !slow && ifs.Some? {
      slow := OtherSeparators(ifs.value);
    }
  }

  method OtherSeparators(ifs: string) returns (other: bool)
    ensures other <==> exists k :: 0 <= k < |ifs| && ifs[k] !in {' ', '\t', '\n'}
  {
    var k := 0;
    while k < |ifs|
      invariant k <= |ifs| && forall i :: 0 <= i < k ==> ifs[i] in {' ', '\t', '\n'}
    {
      if ifs[k] != ' ' && ifs[k] != '\t' && ifs[k] != '\n' {
        return true;
      }
      k := k + 1;
    }
    return false;
  }

  lemma {:induction false} NoNullInEsc(s: string, multi: bool)
    requires '\0' !in s
    ensures '\0' !in Esc(s, multi)
    decreases |s|
  {
    hide NeedsEscape;
    if s != "" && !(multi && s[0] == '\n') {
      if Continues(s) {
        NoNullInEsc(AfterContinuation(s), multi);
      } else {
        NoNullInEsc(s[1..], multi);
      }
    }
  }

  /** The line for the second round begins with the shell, and with the default shell it is the
      last round. */
  lemma {:induction false} NewLineStage(sh: string, l: string, multi: bool, default: string)
    requires PlainShell(default) && '\0' !in l && '\0' !in sh && Esc(l, multi) != ""
    ensures var nl := sh + MINUS_C + Esc(l, multi);
            '\0' !in nl && Stage(nl, false, None, None, default) < 2 && UsualShell(None, None, default)
    ensures var nl := sh + MINUS_C + Esc(l, multi);
            sh == default ==> SkipBlanks(nl) == nl && Stage(nl, false, None, None, default) == 0 && nl != "" &&
                              Run(nl, false, default, START).Words? &&
                              Argv(Run(nl, false, default, START).words) == ShellCommand(default, l, multi)
  {
    hide Run, Esc, Text;
    NoNullInEsc(l, multi);
    var nl := sh + MINUS_C + Esc(l, multi);
    if sh == default {
      ShellLine(default, l, multi);
      assert nl[0] == default[0];
      PlainIsNoBlank(default[0]);
      assert nl[0..] == nl;
    }
  }

  lemma {:induction false} PlainIsNoBlank(c: char)
    requires Plain(c)
    ensures !IsBlank(c)
  {
  }
}
