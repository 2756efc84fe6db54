/** Command lines that need no shell: plain words, words in quotes, and a blank escaped. */
module ShellPlain {
  import opened Wrappers
  import opened Tokens
  import opened ShellSyntax
  import opened ShellScan
  import opened ShellMeaning
  import opened ShellArgv
  import opened ShellNeeds

  /** A command of plain words that is no builtin is split into just these words. */
  lemma {:induction false} PlainCommand(ws: seq<string>, multi: bool, shell: string)
    requires ws != [] && ws[0] !in SH_CMDS && forall k :: 0 <= k < |ws| ==> ws[k] != "" && AllPlain(ws[k])
    ensures Run(Join(ws), multi, shell, START) == Words(ws, None)
  {
    PlainWords("", [], ws, multi, shell, START);
    assert "" + Join(ws) == Join(ws) && [] + ws == ws;
  }

  /** Letters, digits and the usual punctuation of file names. */
  predicate Usual(c: char) {
    'a' <= c <= 'z' || 'A' <= c <= 'Z' || '0' <= c <= '9' || c in "%+,-./:@_"
  }

  /** So a command of such words is executed as it stands, without the shell. */
  lemma {:induction false} UsualCommand(ws: seq<string>, multi: bool, shell: string)
    requires ws != [] && !Builtin(ws[0])
    requires forall k :: 0 <= k < |ws| ==> ws[k] != "" && forall i :: 0 <= i < |ws[k]| ==> Usual(ws[k][i])
    ensures Run(Join(ws), multi, shell, START) == Words(ws, None)
  {
    hide Run;
    TableOfBuiltins();
    forall k | 0 <= k < |ws|
      ensures AllPlain(ws[k])
    {
      hide Plain;
      forall i | 0 <= i < |ws[k]|
        ensures Plain(ws[k][i])
      {
        UsualIsPlain(ws[k][i]);
      }
    }
    PlainCommand(ws, multi, shell);
  }

  lemma {:induction false} UsualIsPlain(c: char)
    requires Usual(c)
    ensures Plain(c)
  {
    TableExact(c);
    hide ShChar;
  }

  lemma {:induction false} PlainWords(before: string, done: seq<string>, ws: seq<string>, multi: bool, shell: string, s: Scan)
    requires ws != [] && forall k :: 0 <= k < |ws| ==> ws[k] != "" && AllPlain(ws[k])
    requires s == Scan(|before|, done, "", None, false, done != [], false) && (done + ws)[0] !in SH_CMDS
    ensures Run(before + Join(ws), multi, shell, s) == Words(done + ws, None)
    decreases |ws|
  {
    hide Run, Plain;
    var nl := before + Join(ws);
    if |ws| == 1 {
      assert nl[s.p..s.p + |ws[0]|] == ws[0];
      PlainRun(nl, multi, shell, s, ws[0]);
      assert "" + ws[0] == ws[0] && ws == [ws[0]];
      RunEnd(nl, multi, shell, s.(p := |nl|, cur := ws[0]));
    } else {
      var after := Join(ws[1..]);
      JoinStart(ws[1..]);
      assert nl[s.p..s.p + |ws[0]|] == ws[0];
      PlainRun(nl, multi, shell, s, ws[0]);
      assert "" + ws[0] == ws[0];
      assert nl == before + ws[0] + " " + after;
      BlankTurn(nl, multi, shell, s.(p := s.p + |ws[0]|, cur := ws[0]));
      var t := Scan(|before + ws[0] + " "|, done + [ws[0]], "", None, false, true, false);
      assert done + [ws[0]] + ws[1..] == done + ws;
      PlainWords(before + ws[0] + " ", done + [ws[0]], ws[1..], multi, shell, t);
    }
  }

  lemma {:induction false} JoinStart(ws: seq<string>)
    requires ws != [] && ws[0] != "" && AllPlain(ws[0])
    ensures Join(ws) != "" && !IsBlank(Join(ws)[0])
  {
    PlainIsNoBlank(ws[0][0]);
    hide Plain;
  }

  /** A plain word is copied, wherever it stands. */
  lemma {:induction false} PlainWord(before: string, w: string, after: string, multi: bool, shell: string, s: Scan)
    requires s.p == |before| && s.cur == "" && s.quote.None? && AllPlain(w)
    ensures Run(before + w + after, multi, shell, s) == Run(before + w + after, multi, shell, s.(p := |before| + |w|, cur := w))
  {
    hide Run, Plain;
    assert (before + w + after)[s.p..s.p + |w|] == w;
    PlainRun(before + w + after, multi, shell, s, w);
    assert "" + w == w;
  }

  /** A backslash-newline inside a word, and the tab behind it, are as good as not there; with a blank before it
      the next line begins another word. */
  lemma {:induction false} ContinuedCommand(c: string, u: string, v: string, tab: string, multi: bool, shell: string)
    requires c != "" && AllPlain(c) && c !in SH_CMDS && u != "" && AllPlain(u) && v != "" && AllPlain(v) && (tab == "" || tab == "\t")
    ensures Run(c + " " + u + "\\\n" + tab + v, multi, shell, START) == Words([c, u + v], None)
    ensures Run(c + " " + u + " \\\n" + tab + v, multi, shell, START) == Words([c, u, v], None)
  {
    hide Run, Plain;
    SecondWord(c, u, "\\\n" + tab + v, multi, shell);
    SecondWord(c, u, " \\\n" + tab + v, multi, shell);
    assert c + " " + u + ("\\\n" + tab + v) == c + " " + u + "\\\n" + tab + v;
    assert c + " " + u + (" \\\n" + tab + v) == c + " " + u + " \\\n" + tab + v;
    var p := |c| + 1 + |u|;
    JoinedEnd(c + " " + u, tab, v, multi, shell, Scan(p, [c], u, None, false, true, false));
    var line := c + " " + u + " " + "\\\n" + tab + v;
    assert line == c + " " + u + " \\\n" + tab + v;
    BackslashIsNoBlank();
    BlankTurn(line, multi, shell, Scan(p, [c], u, None, false, true, false));
    assert [c] + [u] == [c, u];
    JoinedEnd(c + " " + u + " ", tab, v, multi, shell, Scan(p + 1, [c, u], "", None, false, true, false));
    assert "" + v == v && [c, u] + [v] == [c, u, v] && [c] + [u + v] == [c, u + v];
  }

  lemma {:induction false} BackslashIsNoBlank()
    ensures !IsBlank('\\')
  {
  }

  /** The scan has come to the end of the second word. */
  lemma {:induction false} SecondWord(c: string, u: string, rest: string, multi: bool, shell: string)
    requires c != "" && AllPlain(c) && c !in SH_CMDS && u != "" && AllPlain(u)
    ensures Run(c + " " + u + rest, multi, shell, START) ==
            Run(c + " " + u + rest, multi, shell, Scan(|c| + 1 + |u|, [c], u, None, false, true, false))
  {
    hide Run, Plain;
    var line := c + " " + u + rest;
    assert line[0..|c|] == c;
    PlainRun(line, multi, shell, START, c);
    assert "" + c == c;
    var s := Scan(|c|, [], c, None, false, false, false);
    PlainIsNoBlank(u[0]);
    assert line[|c| + 1] == u[0];
    BlankTurn(line, multi, shell, s);
    assert [] + [c] == [c];
    var t := Scan(|c| + 1, [c], "", None, false, true, false);
    assert line[t.p..t.p + |u|] == u;
    PlainRun(line, multi, shell, t, u);
    assert "" + u == u;
  }

  /** A backslash-newline, and the last word behind it. */
  lemma {:induction false} JoinedEnd(before: string, tab: string, v: string, multi: bool, shell: string, s: Scan)
    requires v != "" && AllPlain(v) && (tab == "" || tab == "\t")
    requires s.p == |before| && s.quote.None? && !s.lastEmpty && s.words != []
    ensures Run(before + "\\\n" + tab + v, multi, shell, s) == Words(s.words + [s.cur + v], None)
  {
    hide Run, Plain;
    var line := before + "\\\n" + tab + v;
    var q := |before| + 2 + |tab|;
    RunTurn(line, multi, shell, s);
    ContinuationTurn(line, multi, shell, s, tab, v);
    assert line[q..q + |v|] == v;
    PlainRun(line, multi, shell, s.(p := q), v);
    RunEnd(line, multi, shell, s.(p := |line|, cur := s.cur + v));
    assert |s.words + [s.cur + v]| > 1;
  }

  lemma {:induction false} ContinuationTurn(line: string, multi: bool, shell: string, s: Scan, tab: string, v: string)
    requires v != "" && AllPlain(v) && (tab == "" || tab == "\t") && s.quote.None?
    requires s.p + 2 + |tab| + |v| == |line| && line[s.p..] == "\\\n" + tab + v
    ensures Turn(line, multi, shell, s) == Go(s.(p := s.p + 2 + |tab|))
  {
    var rest := "\\\n" + tab + v;
    assert forall k :: 0 <= k < |rest| ==> line[s.p + k] == line[s.p..][k] == rest[k];
    assert line[s.p] == '\\' && line[s.p + 1] == '\n' && (tab == "\t" ==> line[s.p + 2] == '\t') && line[s.p + 2 + |tab|] == v[0];
    PlainIsNoBlank(v[0]);
    OrdinaryChars();
    hide ShChar, Plain, Blank;
  }

  /** A word in single quotes. */
  function SingleQuoted(w: string): string {
    "'" + w + "'"
  }

  function AllQuoted(ws: seq<string>): (qs: seq<string>)
    ensures |qs| == |ws|
  {
    if ws == [] then [] else [SingleQuoted(ws[0])] + AllQuoted(ws[1..])
  }

  /** What single quotes can hold in one line. */
  predicate Quotable(w: string) {
    '\'' !in w && '\n' !in w
  }

  /** A command of words in single quotes is split into just these words, whatever else is in them:
      blanks, backslashes, characters of the shell, or nothing. */
  lemma {:induction false} QuotedCommand(ws: seq<string>, multi: bool, shell: string)
    requires ws != [] && ws[0] !in SH_CMDS && forall k :: 0 <= k < |ws| ==> Quotable(ws[k])
    ensures Run(Join(AllQuoted(ws)), multi, shell, START) == Words(ws, None)
  {
    QuotedWords("", [], ws, multi, shell, START);
    assert "" + Join(AllQuoted(ws)) == Join(AllQuoted(ws)) && [] + ws == ws;
  }

  lemma {:induction false} QuotedWords(before: string, done: seq<string>, ws: seq<string>, multi: bool, shell: string, s: Scan)
    requires ws != [] && forall k :: 0 <= k < |ws| ==> Quotable(ws[k])
    requires s == Scan(|before|, done, "", None, false, done != [], false) && (done + ws)[0] !in SH_CMDS
    ensures Run(before + Join(AllQuoted(ws)), multi, shell, s) == Words(done + ws, None)
    decreases |ws|
  {
    hide Run, Quotable;
    var nl := before + Join(AllQuoted(ws));
    var t := s.(p := |before| + |ws[0]| + 2, cur := ws[0], lastEmpty := ws[0] == "");
    if |ws| == 1 {
      assert AllQuoted(ws)[0] == SingleQuoted(ws[0]) && nl == before + SingleQuoted(ws[0]) + "" && ws == [ws[0]];
      QuotedWord(before, ws[0], "", multi, shell, s);
      RunEnd(nl, multi, shell, t);
    } else {
      var after := Join(AllQuoted(ws[1..]));
      assert AllQuoted(ws)[0] == SingleQuoted(ws[0]) && AllQuoted(ws)[1..] == AllQuoted(ws[1..]);
      assert nl == before + SingleQuoted(ws[0]) + (" " + after) == (before + SingleQuoted(ws[0]) + " ") + after;
      JoinQuotedStart(ws[1..]);
      QuotedWord(before, ws[0], " " + after, multi, shell, s);
      assert nl[t.p] == ' ' && nl[t.p + 1] == after[0];
      BlankTurn(nl, multi, shell, t);
      assert done + [ws[0]] + ws[1..] == done + ws;
      QuotedWords(before + SingleQuoted(ws[0]) + " ", done + [ws[0]], ws[1..], multi, shell,
                  Scan(t.p + 1, done + [ws[0]], "", None, false, true, false));
    }
  }

  lemma {:induction false} JoinQuotedStart(ws: seq<string>)
    requires ws != []
    ensures Join(AllQuoted(ws)) != "" && Join(AllQuoted(ws))[0] == '\''
  {
    assert AllQuoted(ws)[0] == SingleQuoted(ws[0]);
  }

  /** A quotation is copied without its quotes. */
  lemma {:induction false} QuotedWord(before: string, w: string, after: string, multi: bool, shell: string, s: Scan)
    requires s.p == |before| && s.cur == "" && s.quote.None? && !s.lastEmpty && Quotable(w)
    ensures Run(before + SingleQuoted(w) + after, multi, shell, s) ==
            Run(before + SingleQuoted(w) + after, multi, shell, s.(p := s.p + |w| + 2, cur := w, lastEmpty := w == ""))
  {
    hide Run;
    var nl := before + SingleQuoted(w) + after;
    assert nl[s.p] == '\'' && nl[s.p + 1..s.p + 1 + |w|] == w && nl[s.p + 1 + |w|] == '\'';
    QuoteTurn(nl, multi, shell, s);
    InsideQuotes(nl, multi, shell, s.(p := s.p + 1, quote := Some('\'')), w);
    assert "" + w == w;
    CloseTurn(nl, multi, shell, s.(p := s.p + 1 + |w|, quote := Some('\''), cur := w));
  }

  lemma {:induction false} QuoteTurn(line: string, multi: bool, shell: string, s: Scan)
    requires s.p < |line| && line[s.p] == '\'' && s.quote.None?
    ensures Run(line, multi, shell, s) == Run(line, multi, shell, s.(p := s.p + 1, quote := Some('\'')))
  {
    RunTurn(line, multi, shell, s);
    SingleQuoteIsOrdinary();
    hide Run, ShChar;
  }

  lemma {:induction false} SingleQuoteIsOrdinary()
    ensures !ShChar('\'')
  {
  }

  lemma {:induction false} CloseTurn(line: string, multi: bool, shell: string, s: Scan)
    requires s.p < |line| && s.quote == Some(line[s.p])
    ensures Run(line, multi, shell, s) == Run(line, multi, shell, s.(p := s.p + 1, quote := None, lastEmpty := s.lastEmpty || s.cur == ""))
  {
    RunTurn(line, multi, shell, s);
    hide Run, ShChar;
  }

  lemma {:induction false} InsideQuotes(line: string, multi: bool, shell: string, s: Scan, w: string)
    requires s.p + |w| < |line| && s.quote == Some('\'') && line[s.p..s.p + |w|] == w && Quotable(w) && line[s.p + |w|] == '\''
    ensures Run(line, multi, shell, s) == Run(line, multi, shell, s.(p := s.p + |w|, cur := s.cur + w))
    decreases |w|
  {
    hide Run;
    if w == "" {
      assert s.cur + w == s.cur;
    } else {
      assert line[s.p] == line[s.p..s.p + |w|][0] == w[0] && w[0] in w;
      assert line[s.p + 1..s.p + |w|] == w[1..];
      if |w| > 1 {
        assert line[s.p + 1] == line[s.p + 1..s.p + |w|][0] == w[1] && w[1] in w;
      }
      RunTurn(line, multi, shell, s);
      InsideQuotes(line, multi, shell, s.(p := s.p + 1, cur := s.cur + [w[0]]), w[1..]);
      assert s.cur + [w[0]] + w[1..] == s.cur + w;
    }
  }

  /** An escaped blank in a line that does not begin with the shell's name: the rules take it for a
      part of the word, but the scan ends the word there and leaves the backslash on it. */
  lemma {:induction false} EscapedBlank(c: string, u: string, v: string, multi: bool, shell: string)
    requires c != "" && AllPlain(c) && c !in SH_CMDS && u != "" && AllPlain(u) && v != "" && AllPlain(v)
    requires !(shell <= c + " " + u + "\\ " + v)
    ensures var line := c + " " + u + "\\ " + v;
            Run(line, multi, shell, START) == Words([c, u + "\\", v], None) && WordsOf(line, multi) == [c, u + " " + v]
  {
    var line := c + " " + u + "\\ " + v;
    EscapedBlankLine(c, u, v);
    hide *;
    EscapedBlankRun(line, c, u, v, multi, shell);
    EscapedBlankMeans(line, c, u, v, multi);
  }

  /** A line of three plain words, a blank behind the first and an escaped blank behind the second. */
  predicate EscapedBlankIn(line: string, c: string, u: string, v: string) {
    var p := |c| + 1 + |u|;
    c != "" && AllPlain(c) && u != "" && AllPlain(u) && v != "" && AllPlain(v) && |line| == p + 2 + |v| &&
    line[0..|c|] == c && line[|c|] == ' ' && line[|c| + 1..p] == u && line[p] == '\\' && line[p + 1] == ' ' &&
    line[p + 2..p + 2 + |v|] == v && !IsBlank(line[|c| + 1]) && !IsBlank(line[p + 2])
  }

  lemma {:induction false} EscapedBlankLine(c: string, u: string, v: string)
    requires c != "" && AllPlain(c) && u != "" && AllPlain(u) && v != "" && AllPlain(v)
    ensures EscapedBlankIn(c + " " + u + "\\ " + v, c, u, v)
  {
    PlainIsNoBlank(u[0]);
    PlainIsNoBlank(v[0]);
    hide Plain, IsBlank;
    var line := c + " " + u + "\\ " + v;
    assert line[|c| + 1] == u[0] && line[|c| + 3 + |u|] == v[0];
  }

  lemma {:induction false} EscapedBlankRun(line: string, c: string, u: string, v: string, multi: bool, shell: string)
    requires EscapedBlankIn(line, c, u, v) && c !in SH_CMDS && !(shell <= line)
    ensures Run(line, multi, shell, START) == Words([c, u + "\\", v], None)
  {
    hide Run, AllPlain, IsBlank;
    PlainRun(line, multi, shell, START, c);
    assert "" + c == c && "" + u == u && "" + v == v;
    BlankTurn(line, multi, shell, START.(p := |c|, cur := c));
    var s2 := Scan(|c| + 1, [c], "", None, false, true, false);
    assert [] + [c] == [c];
    PlainRun(line, multi, shell, s2, u);
    var p := |c| + 1 + |u|;
    UnheededBackslash(line, multi, shell, s2.(p := p, cur := u));
    BlankTurn(line, multi, shell, s2.(p := p + 1, cur := u + "\\"));
    var s3 := Scan(p + 2, [c, u + "\\"], "", None, false, true, false);
    assert [c] + [u + "\\"] == [c, u + "\\"];
    PlainRun(line, multi, shell, s3, v);
    RunEnd(line, multi, shell, s3.(p := |line|, cur := v));
    assert [c, u + "\\"] + [v] == [c, u + "\\", v];
  }

  lemma {:induction false} EscapedBlankMeans(line: string, c: string, u: string, v: string, multi: bool)
    requires EscapedBlankIn(line, c, u, v)
    ensures WordsOf(line, multi) == [c, u + " " + v]
  {
    hide AllPlain, Lex, Fields;
    var p := |c| + 1 + |u|;
    PlainLexemes(line, multi, 0, c, None);
    SeparatorStep(line, multi, |c|, Some(c));
    PlainLexemes(line, multi, |c| + 1, u, None);
    EscapedStep(line, multi, p, Some(u));
    assert u + [' '] == u + " ";
    PlainLexemes(line, multi, p + 2, v, Some(u + " "));
    LexStop(line, multi, |line|);
    FieldsEnd(Some(u + " " + v));
    assert "" + c == c && "" + u == u && [c] + [u + " " + v] == [c, u + " " + v];
  }

  lemma {:induction false} EscapedStep(line: string, multi: bool, p: nat, cur: Option<string>)
    requires p + 1 < |line| && line[p] == '\\' && line[p + 1] != '\n'
    ensures Fields(Lex(line, multi, p, None).lexemes, cur) == Fields(Lex(line, multi, p + 2, None).lexemes, Some(TextOf(cur) + [line[p + 1]]))
  {
    LexStep(line, multi, p, None);
    hide Lex, Fields;
    FieldsStep(Escaped(line[p + 1]), Lex(line, multi, p + 2, None).lexemes, cur);
  }

  lemma {:induction false} LexStop(line: string, multi: bool, p: nat)
    requires p >= |line|
    ensures Lex(line, multi, p, None) == Lexed([], None)
  {
  }

  lemma {:induction false} PlainLexemes(line: string, multi: bool, p: nat, w: string, cur: Option<string>)
    requires p + |w| <= |line| && line[p..p + |w|] == w && AllPlain(w) && w != ""
    ensures Fields(Lex(line, multi, p, None).lexemes, cur) == Fields(Lex(line, multi, p + |w|, None).lexemes, Some(TextOf(cur) + w))
    decreases |w|
  {
    hide Lex, Fields, Plain;
    assert line[p] == line[p..p + |w|][0] == w[0];
    LiteralStep(line, multi, p, cur);
    if |w| == 1 {
      assert w == [w[0]];
    } else {
      assert line[p + 1..p + |w|] == w[1..];
      PlainLexemes(line, multi, p + 1, w[1..], Some(TextOf(cur) + [w[0]]));
      assert TextOf(cur) + [w[0]] + w[1..] == TextOf(cur) + w;
    }
  }

  lemma {:induction false} LiteralStep(line: string, multi: bool, p: nat, cur: Option<string>)
    requires p < |line| && Plain(line[p])
    ensures Fields(Lex(line, multi, p, None).lexemes, cur) == Fields(Lex(line, multi, p + 1, None).lexemes, Some(TextOf(cur) + [line[p]]))
  {
    PlainIsEasy(line[p]);
    PlainIsNoBlank(line[p]);
    PlainIsNoQuote(line[p]);
    LexStep(line, multi, p, None);
    hide Plain, Lex, Fields;
    FieldsStep(Literal(line[p]), Lex(line, multi, p + 1, None).lexemes, cur);
  }

  lemma {:induction false} PlainIsEasy(c: char)
    requires Plain(c)
    ensures !NeedsEscape(c) && c != '\n' && c != '\\'
  {
  }

  lemma {:induction false} PlainIsNoQuote(c: char)
    requires Plain(c)
    ensures c != '\'' && c != '"'
  {
  }

  /** An empty word in quotes, joined to the blank behind it: by the rules there are three words, but
      the scan makes one of the last two. */
  lemma {:induction false} EmptyWordLost(c: string, v: string, multi: bool, shell: string)
    requires c != "" && AllPlain(c) && c !in SH_CMDS && v != "" && AllPlain(v)
    ensures var line := c + " ''\\\n " + v;
            Run(line, multi, shell, START) == Words([c, v], None) && WordsOf(line, multi) == [c, "", v]
  {
    EmptyWordLine(c, v);
    hide *;
    EmptyWordRun(c + " ''\\\n " + v, c, v, multi, shell);
    EmptyWordMeans(c + " ''\\\n " + v, c, v, multi);
  }

  predicate EmptyWordIn(line: string, c: string, v: string) {
    var p := |c|;
    c != "" && AllPlain(c) && v != "" && AllPlain(v) && |line| == p + 6 + |v| && line[0..p] == c &&
    line[p] == ' ' && line[p + 1] == '\'' && line[p + 2] == '\'' && line[p + 3] == '\\' && line[p + 4] == '\n' &&
    line[p + 5] == ' ' && line[p + 6..p + 6 + |v|] == v && !IsBlank(line[p + 6])
  }

  lemma {:induction false} EmptyWordLine(c: string, v: string)
    requires c != "" && AllPlain(c) && v != "" && AllPlain(v)
    ensures EmptyWordIn(c + " ''\\\n " + v, c, v)
  {
    PlainIsNoBlank(v[0]);
    hide Plain, IsBlank;
    assert (c + " ''\\\n " + v)[|c| + 6] == v[0];
  }

  lemma {:induction false} EmptyWordRun(line: string, c: string, v: string, multi: bool, shell: string)
    requires EmptyWordIn(line, c, v) && c !in SH_CMDS
    ensures Run(line, multi, shell, START) == Words([c, v], None)
  {
    hide Run, Turn, AllPlain, BlankEnd;
    var p := |c|;
    PlainRun(line, multi, shell, START, c);
    assert "" + c == c && "" + v == v && [] + [c] == [c];
    BlankTurn(line, multi, shell, START.(p := p, cur := c));
    var s := Scan(p + 1, [c], "", None, false, true, false);
    QuoteTurn(line, multi, shell, s);
    CloseTurn(line, multi, shell, s.(p := p + 2, quote := Some('\'')));
    var t := s.(p := p + 3, lastEmpty := true);
    JoinedTurn(line, multi, shell, t);
    RunTurn(line, multi, shell, t);
    OneBlank(line, p + 5);
    PlainRun(line, multi, shell, t.(p := p + 6), v);
    RunEnd(line, multi, shell, t.(p := |line|, cur := v));
    assert [c] + [v] == [c, v];
  }

  lemma {:induction false} OneBlank(line: string, p: nat)
    requires p + 1 < |line| && line[p] == ' ' && !IsBlank(line[p + 1])
    ensures AfterTab(line, p) == p && BlankEnd(line, p) == p + 1
  {
    assert BlankEnd(line, p) == BlankEnd(line, p + 1);
  }

  lemma {:induction false} EmptyWordMeans(line: string, c: string, v: string, multi: bool)
    requires EmptyWordIn(line, c, v)
    ensures WordsOf(line, multi) == [c, "", v]
  {
    hide AllPlain, Lex, Fields, BlankEnd;
    var p := |c|;
    PlainLexemes(line, multi, 0, c, None);
    SeparatorStep(line, multi, p, Some(c));
    LexStep(line, multi, p + 1, None);
    LexStep(line, multi, p + 2, Some('\''));
    LexStep(line, multi, p + 3, None);
    OneBlank(line, p + 5);
    FieldsStep(Joined, Lex(line, multi, p + 5, None).lexemes, Some(""));
    FieldsStep(Closed, Lex(line, multi, p + 3, None).lexemes, None);
    SeparatorStep(line, multi, p + 5, Some(""));
    PlainLexemes(line, multi, p + 6, v, None);
    LexStop(line, multi, |line|);
    FieldsEnd(Some(v));
    assert "" + c == c && "" + v == v && [c] + ([""] + [v]) == [c, "", v];
  }
}
