/** Command lines for a shell other than the default one. */
module OtherShell {
  import opened Wrappers
  import opened Tokens
  import opened ShellSyntax
  import opened ShellScan
  import opened ShellMeaning
  import opened ShellArgv
  import opened ShellPlain

  lemma {:induction false} EscPlain(w: string, rest: string, multi: bool)
    requires AllPlain(w)
    ensures Esc(w + rest, multi) == w + Esc(rest, multi)
  {
    hide NeedsEscape, Esc, Plain;
    if w == "" {
      assert w + rest == rest;
    } else {
      PlainIsEasy(w[0]);
      EscPlain(w[1..], rest, multi);
      EscAt(w + rest, 0, multi);
      assert (w + rest)[0..] == w + rest;
      assert (w + rest)[1..] == w[1..] + rest;
      assert w + Esc(rest, multi) == [w[0]] + (w[1..] + Esc(rest, multi));
    }
  }

  /** Where the escaping ends. */
  function EndOf(line: string, multi: bool, i: nat): nat
    requires i <= |line|
  {
    if multi then CutAt(line, i) else |line|
  }

  /** There is nothing to escape but newlines that get lost. */
  predicate NothingEscaped(line: string, multi: bool, i: nat)
    requires i <= |line|
  {
    forall k :: i <= k < EndOf(line, multi, i) && NeedsEscape(line[k]) ==> line[k] == '\n'
  }

  lemma {:induction false} NothingEscapedStep(line: string, multi: bool, i: nat)
    requires i < |line| && Between(line, i) && !(multi && line[i] == '\n')
    ensures NothingEscaped(line, multi, i) <==>
            (NeedsEscape(line[i]) ==> line[i] == '\n') && (i + 1 <= |line| && NothingEscaped(line, multi, i + 1))
    ensures ContinuesAt(line, i) ==> !NothingEscaped(line, multi, i)
  {
    CutStep(line, i);
    hide NeedsEscape, CutAt, Between;
    BackslashesAreEscaped();
  }

  lemma {:induction false} BackslashesAreEscaped()
    ensures NeedsEscape('\\')
  {
  }

  /** An escape in a line that does not begin with the shell's name: the backslash is copied. */
  lemma {:induction false} KeptEscape(nl: string, shell: string, s: Scan, line: string, i: nat, multi: bool)
    requires AtEscaped(nl, s, line, i, multi) && !(shell <= nl) && '\0' !in line && i < |line|
    requires !(multi && line[i] == '\n') && !Easy(line, i)
    ensures s.p + 1 < |nl| && nl[s.p] == '\\' && nl[s.p + 1] == line[i] && line[i] != '\n'
    ensures Run(nl, false, shell, s) == Run(nl, false, shell, s.(p := s.p + 1, cur := s.cur + "\\"))
    ensures if ContinuesAt(line, i) then s.p + 3 <= |nl| && nl[s.p + 2] == '\n' && nl[s.p + 3..] == Esc(line[AfterTab(line, i + 2)..], multi)
            else nl[s.p + 2..] == Esc(line[i + 1..], multi)
  {
    hide Run, Esc, NeedsEscape;
    EscAt(line, i, multi);
    BackslashesAreEscaped();
    var e := Esc(line[i..], multi);
    if ContinuesAt(line, i) {
      assert e[..3] == "\\\\\n" && e[3..] == Esc(line[AfterTab(line, i + 2)..], multi);
      Tail(nl, s.p, e, 3);
    } else {
      assert e[..2] == ['\\', line[i]] && e[2..] == Esc(line[i + 1..], multi);
      Tail(nl, s.p, e, 2);
    }
    UnheededBackslash(nl, false, shell, s);
  }

  /** So is the other backslash of a pair. */
  lemma {:induction false} KeptPair(nl: string, shell: string, s: Scan, line: string, i: nat, multi: bool)
    requires AtEscaped(nl, s, line, i, multi) && !(shell <= nl) && '\0' !in line && i < |line|
    requires line[i] == '\\' && !ContinuesAt(line, i)
    ensures var t := s.(p := s.p + 2, cur := s.cur + "\\\\");
            AtEscaped(nl, t, line, i + 1, multi) && Run(nl, false, shell, s) == Run(nl, false, shell, t)
  {
    hide Run, Esc, NeedsEscape;
    BackslashesAreEscaped();
    KeptEscape(nl, shell, s, line, i, multi);
    NoNewlineFirst(line, i + 1, multi);
    assert At(nl, s.p + 2) != '\n' by {
      if s.p + 2 < |nl| {
        assert nl[s.p + 2..][0] == nl[s.p + 2];
      }
    }
    UnheededBackslash(nl, false, shell, s.(p := s.p + 1, cur := s.cur + "\\"));
    assert s.cur + "\\" + "\\" == s.cur + "\\\\";
  }

  lemma {:induction false} NoNewlineFirst(line: string, i: nat, multi: bool)
    requires i <= |line|
    ensures Esc(line[i..], multi) != "" ==> Esc(line[i..], multi)[0] != '\n'
  {
  }

  /** The backslash-newline of a line, behind its backslash copied. */
  lemma {:induction false} KeptContinuation(nl: string, shell: string, s: Scan, line: string, i: nat, multi: bool)
    requires AtEscaped(nl, s, line, i, multi) && !(shell <= nl) && '\0' !in line && i < |line| && ContinuesAt(line, i)
    ensures AfterTab(line, i + 2) <= |line|
    ensures var t := s.(p := s.p + 3, cur := s.cur + "\\");
            AtEscaped(nl, t, line, AfterTab(line, i + 2), multi) && Run(nl, false, shell, s) == Run(nl, false, shell, t)
  {
    hide Run, Esc, NeedsEscape;
    BackslashesAreEscaped();
    EscAt(line, i, multi);
    KeptEscape(nl, shell, s, line, i, multi);
    var j := AfterTab(line, i + 2);
    EscStartsUnblank(line, j, multi);
    if s.p + 3 < |nl| {
      assert nl[s.p + 3..][0] == nl[s.p + 3];
    }
    LostNewline(nl, shell, s.(p := s.p + 1, cur := s.cur + "\\"));
  }

  /** What the scan adds to a word next is no newline. */
  lemma {:induction false} NoNewlineNext(nl: string, shell: string, s: Scan, line: string, i: nat, multi: bool)
    requires AtEscaped(nl, s, line, i, multi) && !(shell <= nl) && '\0' !in line && s.cur != ""
    ensures var o := Run(nl, false, shell, s);
            o.Words? ==> |s.words| < |o.words| && (o.words[|s.words|] == s.cur || (s.cur < o.words[|s.words|] && o.words[|s.words|][|s.cur|] != '\n'))
    decreases |line| - i
  {
    hide Run, Esc, NeedsEscape, IsSpace;
    if i == |line| || (multi && line[i] == '\n') {
      EscEnd(line, i, multi);
      RunEnd(nl, false, shell, s);
    } else if Easy(line, i) {
      var t := EasyOne(nl, shell, s, line, i, multi);
      if line[i] == '\n' {
        assert s.cur + "" == s.cur;
        NoNewlineNext(nl, shell, t, line, i + 1, multi);
      } else {
        RunKeeps(nl, false, shell, t);
        assert t.cur[|s.cur|] == line[i];
      }
    } else {
      KeptEscape(nl, shell, s, line, i, multi);
      RunKeeps(nl, false, shell, s.(p := s.p + 1, cur := s.cur + "\\"));
      assert (s.cur + "\\")[|s.cur|] == '\\';
    }
  }

  /** A word that has got longer by backslashes is not the text. */
  lemma {:induction false} LongerEscaped(nl: string, shell: string, s: Scan, line: string, i: nat, multi: bool, y: string)
    requires AtEscaped(nl, s, line, i, multi) && !(shell <= nl) && '\0' !in line && Longer(s.cur, y)
    ensures Run(nl, false, shell, s) != Ended(s.words, y + Text(line[i..], multi), s.lastEmpty)
    decreases |line| - i
  {
    hide Run, Esc, Text, NeedsEscape, IsSpace, Longer;
    LongerShape(s.cur, y);
    var m := Ended(s.words, y + Text(line[i..], multi), s.lastEmpty);
    assert m.words[|s.words|] == y + Text(line[i..], multi);
    if i == |line| || (multi && line[i] == '\n') {
      EscEnd(line, i, multi);
      RunEnd(nl, false, shell, s);
      assert Run(nl, false, shell, s).Words? ==> Run(nl, false, shell, s).words[|s.words|] == s.cur;
      assert y + "" == y;
    } else {
      TextAt(line, i, multi);
      if Easy(line, i) {
        var t := EasyOne(nl, shell, s, line, i, multi);
        if line[i] == '\n' {
          assert s.cur + "" == s.cur && "" + Text(line[i + 1..], multi) == Text(line[i + 1..], multi);
          LongerEscaped(nl, shell, t, line, i + 1, multi, y);
        } else {
          NotABackslash(line, i);
          Parts(nl, shell, t, m, y + [line[i]], |y|);
        }
      } else if ContinuesAt(line, i) {
        KeptEscape(nl, shell, s, line, i, multi);
        StillLonger(s.cur, y);
        LongerShape(s.cur + "\\", y + "\\");
        Parts(nl, shell, s.(p := s.p + 1, cur := s.cur + "\\"), m, y + "\\\n", |y| + 1);
      } else if line[i] != '\\' {
        KeptEscape(nl, shell, s, line, i, multi);
        Parts(nl, shell, s.(p := s.p + 1, cur := s.cur + "\\"), m, y + [line[i]], |y|);
      } else {
        KeptPair(nl, shell, s, line, i, multi);
        StillLonger(s.cur, y);
        assert y + (['\\'] + Text(line[i + 1..], multi)) == y + "\\" + Text(line[i + 1..], multi);
        LongerEscaped(nl, shell, s.(p := s.p + 2, cur := s.cur + "\\\\"), line, i + 1, multi, y + "\\");
      }
    }
  }

  lemma {:induction false} NotABackslash(line: string, i: nat)
    requires i < |line| && Easy(line, i)
    ensures line[i] != '\\'
  {
  }

  lemma {:induction false} Parts(nl: string, shell: string, t: Scan, m: Outcome, y: string, k: nat)
    requires m.Words? && k < |y| && k < |t.cur| && y[k] != t.cur[k]
    requires t.words <= m.words && |t.words| < |m.words| && y <= m.words[|t.words|]
    ensures Run(nl, false, shell, t) != m
  {
    hide Run;
    if Run(nl, false, shell, t).Words? {
      PartWays(nl, false, shell, t, m, y, k);
    }
  }

  /** Scanning an escaped line in one that does not begin with the shell's name gives the text back
      exactly if there is nothing to escape. */
  lemma {:induction false} OtherRun(nl: string, shell: string, s: Scan, line: string, i: nat, multi: bool)
    requires AtEscaped(nl, s, line, i, multi) && !(shell <= nl) && '\0' !in line && Between(line, i)
    ensures Run(nl, false, shell, s) == Ended(s.words, s.cur + Text(line[i..], multi), s.lastEmpty) <==> NothingEscaped(line, multi, i)
    decreases |line| - i
  {
    hide Run, Esc, Text, NeedsEscape, IsSpace, Between, CutAt, NothingEscaped;
    if i == |line| || (multi && line[i] == '\n') {
      EscEnd(line, i, multi);
      RunEnd(nl, false, shell, s);
      assert s.cur + "" == s.cur;
      NothingLeft(line, multi, i);
    } else {
      NothingEscapedStep(line, multi, i);
      BetweenNext(line, i);
      if Easy(line, i) {
        TextAt(line, i, multi);
        var t := EasyOne(nl, shell, s, line, i, multi);
        OtherRun(nl, shell, t, line, i + 1, multi);
        assert s.cur + (t.cur[|s.cur|..] + Text(line[i + 1..], multi)) == t.cur + Text(line[i + 1..], multi);
      } else {
        EscapeShows(nl, shell, s, line, i, multi);
      }
    }
  }

  lemma {:induction false} NothingLeft(line: string, multi: bool, i: nat)
    requires i <= |line| && (i == |line| || (multi && line[i] == '\n')) && Between(line, i)
    ensures NothingEscaped(line, multi, i)
  {
    if i < |line| {
      CutStep(line, i);
    }
  }

  lemma {:induction false} EscapeShows(nl: string, shell: string, s: Scan, line: string, i: nat, multi: bool)
    requires AtEscaped(nl, s, line, i, multi) && !(shell <= nl) && '\0' !in line && i < |line|
    requires !(multi && line[i] == '\n') && !Easy(line, i)
    ensures Run(nl, false, shell, s) != Ended(s.words, s.cur + Text(line[i..], multi), s.lastEmpty)
  {
    hide Run, Esc, Text, NeedsEscape, IsSpace;
    TextAt(line, i, multi);
    var m := Ended(s.words, s.cur + Text(line[i..], multi), s.lastEmpty);
    assert m.words[|s.words|] == s.cur + Text(line[i..], multi);
    if ContinuesAt(line, i) {
      KeptContinuation(nl, shell, s, line, i, multi);
      var t := s.(p := s.p + 3, cur := s.cur + "\\");
      NoNewlineNext(nl, shell, t, line, AfterTab(line, i + 2), multi);
      assert (s.cur + ("\\\n" + Text(line[AfterTab(line, i + 2)..], multi)))[|t.cur|] == '\n';
    } else if line[i] != '\\' {
      KeptEscape(nl, shell, s, line, i, multi);
      Parts(nl, shell, s.(p := s.p + 1, cur := s.cur + "\\"), m, s.cur + [line[i]], |s.cur|);
    } else {
      KeptPair(nl, shell, s, line, i, multi);
      assert Longer(s.cur + "\\\\", s.cur + "\\");
      assert s.cur + (['\\'] + Text(line[i + 1..], multi)) == s.cur + "\\" + Text(line[i + 1..], multi);
      LongerEscaped(nl, shell, s.(p := s.p + 2, cur := s.cur + "\\\\"), line, i + 1, multi, s.cur + "\\");
    }
  }

  lemma {:induction false} BeginsWithShell(shell: string, default: string, e: string)
    requires PlainShell(default)
    ensures default <= shell + MINUS_C + e <==> default <= shell
  {
    if default <= shell + MINUS_C + e && |default| > |shell| {
      assert default[|shell|] == (shell + MINUS_C + e)[|shell|] == ' ';
      PlainIsNoBlank(default[|shell|]);
      assert false;
    }
  }

  lemma {:induction false} OtherLine(shell: string, default: string, line: string, multi: bool)
    requires PlainShell(shell) && PlainShell(default) && '\0' !in line && Esc(line, multi) != ""
    ensures Run(shell + MINUS_C + Esc(line, multi), false, default, START) == Ended([shell, "-c"], Text(line, multi), false) <==>
            default <= shell || NothingEscaped(line, multi, 0)
  {
    hide Run, Esc, Text, NothingEscaped, PlainShell;
    var nl := shell + MINUS_C + Esc(line, multi);
    assert line[0..] == line;
    EscStartsUnblank(line, 0, multi);
    ShellAndFlag(shell, Esc(line, multi), default);
    BeginsWithShell(shell, default, Esc(line, multi));
    BetweenStart(line);
    var s := Scan(|shell| + 4, [shell, "-c"], "", None, false, true, false);
    assert nl[s.p..] == Esc(line, multi);
    assert "" + Text(line, multi) == Text(line, multi);
    if default <= shell {
      EscRun(nl, default, s, line, 0, multi);
    } else {
      OtherRun(nl, default, s, line, 0, multi);
    }
  }

  /** Another shell gets the text of a line as its one argument exactly if its name begins with that
      of the default shell, behind which escapes are undone, or there is nothing to escape. */
  lemma {:induction false} OtherShellExact(shell: string, default: string, line: string, multi: bool)
    requires PlainShell(shell) && PlainShell(default) && '\0' !in line
    ensures OtherCommand(shell, line, multi, default) == ShellCommand(shell, line, multi) <==>
            default <= shell || NothingEscaped(line, multi, 0)
  {
    hide *;
    if Esc(line, multi) == "" {
      NothingInside(line, multi);
      NoCommand(shell, default, line, multi);
    } else {
      var nl := shell + MINUS_C + Esc(line, multi);
      OtherLine(shell, default, line, multi);
      OtherCommandIs(shell, default, line, multi);
      RunKeeps(nl, false, default, START);
      ArgvOfText(Run(nl, false, default, START), [shell, "-c"], Text(line, multi));
      ShellFirst(default, nl, false);
      ShellFirst(shell, line, multi);
    }
  }

  lemma {:induction false} OtherCommandIs(shell: string, default: string, line: string, multi: bool)
    requires PlainShell(shell) && Esc(line, multi) != ""
    ensures var nl := shell + MINUS_C + Esc(line, multi);
            var o := Run(nl, false, default, START);
            OtherCommand(shell, line, multi, default) == if o.Words? then Argv(o.words) else ShellCommand(default, nl, false)
  {
    hide Run, Esc, PlainShell, SkipBlanks;
    NotStripped(shell, MINUS_C + Esc(line, multi));
    assert shell + MINUS_C + Esc(line, multi) == shell + (MINUS_C + Esc(line, multi));
  }

  lemma {:induction false} NoCommand(shell: string, default: string, line: string, multi: bool)
    requires Esc(line, multi) == ""
    ensures OtherCommand(shell, line, multi, default) == ShellCommand(shell, line, multi)
  {
    hide Run, Esc, Text;
  }

  lemma {:induction false} ArgvOfText(o: Outcome, words: seq<string>, text: string)
    requires words != [] && (o.Words? ==> o.rest.None?)
    ensures Ended(words, text, false).Words?
    ensures o.Words? ==> (Argv(o.words) == Some(words + if text == "" then [] else [text]) <==> o == Ended(words, text, false))
  {
  }

  lemma {:induction false} ShellFirst(shell: string, line: string, multi: bool)
    ensures ShellCommand(shell, line, multi).Some? ==> |ShellCommand(shell, line, multi).value| >= 2 && ShellCommand(shell, line, multi).value[0] == shell
    ensures Esc(line, multi) != "" ==> ShellCommand(shell, line, multi) == Some([shell, "-c"] + if Text(line, multi) == "" then [] else [Text(line, multi)])
  {
    hide Esc, Text;
  }

  lemma {:induction false} NothingInside(line: string, multi: bool)
    requires Esc(line, multi) == ""
    ensures NothingEscaped(line, multi, 0)
  {
    hide NeedsEscape;
  }

  lemma {:induction false} NotStripped(shell: string, rest: string)
    requires PlainShell(shell)
    ensures SkipBlanks(shell + rest) == shell + rest
  {
    PlainIsNoBlank(shell[0]);
    hide Plain;
    assert (shell + rest)[0] == shell[0];
  }

  /** With two words in the line it gets two arguments, the first with the backslash on it. */
  lemma {:induction false} OtherShellSplits(shell: string, default: string, u: string, v: string)
    requires PlainShell(shell) && u != "" && AllPlain(u) && v != "" && AllPlain(v)
    requires !(default <= shell + MINUS_C + u + "\\ " + v)
    ensures Esc(u + " " + v, true) == u + "\\ " + v
    ensures Run(shell + MINUS_C + (u + "\\ " + v), false, default, START) == Words([shell, "-c", u + "\\", v], None)
  {
    EscapedTwo(u, v);
    PlainIsNoBlank(u[0]);
    PlainIsNoBlank(v[0]);
    hide Run, Esc, Plain;
    var before := shell + MINUS_C;
    var nl := before + (u + "\\ " + v);
    assert nl == before + u + ("\\ " + v) && nl == before + u + "\\ " + v && nl == (before + u + "\\ ") + v + "";
    ShellAndFlag(shell, u + "\\ " + v, default);
    var s := Scan(|shell| + 4, [shell, "-c"], "", None, false, true, false);
    PlainWord(before, u, "\\ " + v, false, default, s);
    var t := s.(p := |before| + |u|, cur := u);
    UnheededBackslash(nl, false, default, t);
    var t' := t.(p := t.p + 1, cur := u + "\\");
    BlankTurn(nl, false, default, t');
    var t2 := Scan(t'.p + 1, [shell, "-c", u + "\\"], "", None, false, true, false);
    assert [shell, "-c"] + [u + "\\"] == t2.words;
    PlainWord(before + u + "\\ ", v, "", false, default, t2);
    RunEnd(nl, false, default, t2.(p := |nl|, cur := v));
    assert t2.words + [v] == [shell, "-c", u + "\\", v];
  }

  lemma {:induction false} EscapedTwo(u: string, v: string)
    requires AllPlain(u) && AllPlain(v)
    ensures Esc(u + " " + v, true) == u + "\\ " + v
  {
    hide Plain;
    EscPlain(u, " " + v, true);
    assert u + " " + v == u + (" " + v);
    assert (" " + v)[1..] == v;
    EscPlain(v, "", true);
    assert v + "" == v && v + Esc("", true) == v;
    assert Esc(" " + v, true) == "\\ " + v;
    assert u + ("\\ " + v) == u + "\\ " + v;
  }
}
