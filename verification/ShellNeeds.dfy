/** Which command lines the scan leaves to the shell: those that have something in them that only a
    shell can do. */
module ShellNeeds {
  import opened Wrappers
  import opened Tokens
  import opened ShellSyntax
  import opened ShellScan
  import opened ShellMeaning

  /** Every character that is special to the shell is in the table of the scan, and beside them only
      the double quote, which may hold more of them, and two that were special to older shells. */
  lemma {:induction false} TableExact(c: char)
    ensures ShChar(c) <==> Special(c) || c == '"' || c == ']' || c == '^'
  {
  }

  /** What needs a shell is not split without one, wherever the scan is. */
  lemma {:induction false} NeedsMet(line: string, multi: bool, shell: string, s: Scan)
    requires '\0' !in line && NeedsShell(line, multi, shell <= line, s.p, s.quote)
    ensures !Run(line, multi, shell, s).Words?
    decreases |line| - s.p
  {
    RunTurn(line, multi, shell, s);
    TurnIs(line, multi, shell, s);
    hide Run, Turn;
    NeedsTurn(line, multi, shell, s);
    if Turn(line, multi, shell, s).Go? {
      NeedsMet(line, multi, shell, Turn(line, multi, shell, s).to);
    }
  }

  lemma {:induction false} NeedsTurn(line: string, multi: bool, shell: string, s: Scan)
    requires '\0' !in line && NeedsShell(line, multi, shell <= line, s.p, s.quote)
    ensures s.p < |line| && !Turn(line, multi, shell, s).EndOfLine?
    ensures var n := Turn(line, multi, shell, s); n.Go? ==> NeedsShell(line, multi, shell <= line, n.to.p, n.to.quote)
  {
    TurnIs(line, multi, shell, s);
    hide Turn, Quoted, Unquoted;
    if s.quote.Some? {
      NeedsQuoted(line, multi, shell <= line, s);
    } else {
      NeedsBare(line, multi, shell, s);
    }
  }

  lemma {:induction false} NeedsQuoted(line: string, multi: bool, heed: bool, s: Scan)
    requires s.quote.Some? && NeedsShell(line, multi, heed, s.p, s.quote)
    ensures s.p < |line| && !Quoted(line, multi, s).EndOfLine?
    ensures var n := Quoted(line, multi, s); n.Go? ==> NeedsShell(line, multi, heed, n.to.p, n.to.quote)
  {
  }

  lemma {:induction false} NeedsBare(line: string, multi: bool, shell: string, s: Scan)
    requires '\0' !in line && s.quote.None? && NeedsShell(line, multi, shell <= line, s.p, None)
    ensures s.p < |line| && !Unquoted(line, multi, shell, s).EndOfLine?
    ensures var n := Unquoted(line, multi, shell, s); n.Go? ==> NeedsShell(line, multi, shell <= line, n.to.p, n.to.quote)
  {
    var c := line[s.p];
    TableExact(c);
    hide ShChar, Backslash, Blank;
    if c == '\\' {
      NeedsBackslash(line, multi, shell, s);
    } else if IsBlank(c) {
      NeedsBlank(line, multi, shell <= line, s);
    }
  }

  lemma {:induction false} NeedsBackslash(line: string, multi: bool, shell: string, s: Scan)
    requires '\0' !in line && s.quote.None? && NeedsShell(line, multi, shell <= line, s.p, None) && line[s.p] == '\\'
    ensures var t := Backslash(line, shell, s); t.quote.None? && NeedsShell(line, multi, shell <= line, t.p, None)
  {
    var q := AfterTab(line, s.p + 2);
    if At(line, s.p + 1) == '\n' {
      AfterBlanks(line, multi, shell <= line, q);
    }
  }

  lemma {:induction false} NeedsBlank(line: string, multi: bool, heed: bool, s: Scan)
    requires s.quote.None? && NeedsShell(line, multi, heed, s.p, None) && IsBlank(line[s.p])
    ensures Blank(line, s).Go? ==> NeedsShell(line, multi, heed, Blank(line, s).to.p, None) && Blank(line, s).to.quote.None?
  {
    AfterBlanks(line, multi, heed, s.p);
  }

  lemma {:induction false} AfterBlanks(line: string, multi: bool, heed: bool, p: nat)
    requires NeedsShell(line, multi, heed, p, None)
    ensures p < |line| && NeedsShell(line, multi, heed, BlankEnd(line, p), None)
    decreases |line| - p
  {
    if IsBlank(line[p]) {
      AfterBlanks(line, multi, heed, p + 1);
    }
  }

  /** A line with a special character in front of which there is no quote, backslash or newline. */
  lemma {:induction false} SpecialNeedsShell(line: string, multi: bool, shell: string, k: nat)
    requires '\0' !in line && k < |line| && line[k] in "|&;<>()$`*?[#~{}!"
    requires forall j :: 0 <= j < k ==> line[j] !in "'\"\\\n"
    ensures !Run(line, multi, shell, START).Words? && NeedsShell(line, multi, shell <= line, 0, None)
  {
    SpecialAhead(line, multi, shell <= line, 0, k);
    NeedsMet(line, multi, shell, START);
  }

  lemma {:induction false} SpecialAhead(line: string, multi: bool, heed: bool, p: nat, k: nat)
    requires p <= k < |line| && line[k] in "|&;<>()$`*?[#~{}!"
    requires forall j :: 0 <= j < k ==> line[j] !in "'\"\\\n"
    ensures NeedsShell(line, multi, heed, p, None)
    decreases k - p
  {
    if p < k {
      SpecialAhead(line, multi, heed, p + 1, k);
    }
  }

  /** A line whose first word is an assignment. */
  lemma {:induction false} AssignmentNeedsShell(line: string, multi: bool, shell: string, k: nat)
    requires k < |line| && line[k] == '=' && forall j :: 0 <= j < k ==> line[j] !in " \t'\"\\\n"
    ensures !Run(line, multi, shell, START).Words?
  {
    AssignmentAhead(line, multi, shell, START, k);
  }

  lemma {:induction false} AssignmentAhead(line: string, multi: bool, shell: string, s: Scan, k: nat)
    requires s.p <= k < |line| && line[k] == '=' && forall j :: 0 <= j < k ==> line[j] !in " \t'\"\\\n"
    requires s.quote.None? && !s.seenNonequals
    ensures !Run(line, multi, shell, s).Words?
    decreases k - s.p
  {
    RunTurn(line, multi, shell, s);
    hide Run, ShChar;
    if s.p < k && Turn(line, multi, shell, s).Go? {
      AssignmentAhead(line, multi, shell, Turn(line, multi, shell, s).to, k);
    }
  }

  /** The first word of what is split without the shell, however it is quoted, is no builtin and no
      reserved word of the shell. */
  lemma {:induction false} FirstIsNoBuiltin(line: string, multi: bool, shell: string, s: Scan)
    requires s.words == [] || !Builtin(s.words[0])
    ensures var o := Run(line, multi, shell, s); o.Words? && o.words != [] ==> !Builtin(o.words[0])
    decreases |line| - s.p
  {
    TableOfBuiltins();
    hide SH_CMDS, Builtin;
    if s.p >= |line| {
      RunEnd(line, multi, shell, s);
    } else {
      RunTurn(line, multi, shell, s);
      hide Run, ShChar, Backslash, Quoted;
      SameWords(line, multi, shell, s);
      var n := Turn(line, multi, shell, s);
      if n.Go? {
        FirstIsNoBuiltin(line, multi, shell, n.to);
      }
    }
  }

  lemma {:induction false} SameWords(line: string, multi: bool, shell: string, s: Scan)
    requires s.p < |line|
    ensures Backslash(line, shell, s).words == s.words
    ensures s.quote.Some? && Quoted(line, multi, s).Go? ==> Quoted(line, multi, s).to.words == s.words
  {
  }

  lemma {:induction false} TableOfBuiltins()
    ensures forall w :: w in SH_CMDS <==> Builtin(w)
  {
  }

  /** What the scan takes for the first word when nothing in it is quoted. */
  lemma {:induction false} FirstWord(line: string, multi: bool, shell: string, s: Scan, w: string)
    requires w != "" && w <= line && forall j :: 0 <= j < |w| ==> w[j] !in " \t'\"\\\n"
    requires |w| == |line| || IsBlank(line[|w|]) || (multi && line[|w|] == '\n')
    requires s.p <= |w| && s == START.(p := s.p, cur := w[..s.p], hasEquals := s.hasEquals)
    ensures var o := Run(line, multi, shell, s); o.Words? ==> o.words != [] && o.words[0] == w
    decreases |w| - s.p
  {
    if s.p < |w| {
      RunTurn(line, multi, shell, s);
      hide Run, ShChar;
      assert w[..s.p + 1] == w[..s.p] + [line[s.p]];
      var n := Turn(line, multi, shell, s);
      if n.Go? {
        FirstWord(line, multi, shell, n.to, w);
      }
    } else {
      assert w[..|w|] == w;
      FirstWordEnds(line, multi, shell, s, w);
    }
  }

  lemma {:induction false} FirstWordEnds(line: string, multi: bool, shell: string, s: Scan, w: string)
    requires w != "" && w <= line && s == START.(p := |w|, cur := w, hasEquals := s.hasEquals)
    requires |w| == |line| || IsBlank(line[|w|]) || (multi && line[|w|] == '\n')
    ensures var o := Run(line, multi, shell, s); o.Words? ==> o.words != [] && o.words[0] == w
  {
    assert [] + [w] == [w];
    if |w| == |line| {
      RunEnd(line, multi, shell, s);
    } else {
      RunTurn(line, multi, shell, s);
      TableExact(line[|w|]);
      hide Run, ShChar;
      var n := Turn(line, multi, shell, s);
      if n.Go? {
        RunKeeps(line, multi, shell, n.to);
        assert n.to.words == [w];
      }
    }
  }

  /** The line begins with this word and the end of it. */
  predicate IsFirst(line: string, multi: bool, w: string) {
    w <= line && (|w| == |line| || IsBlank(line[|w|]) || (multi && line[|w|] == '\n'))
  }

  ghost predicate BeginsWithBuiltin(line: string, multi: bool) {
    exists w :: IsFirst(line, multi, w) && Builtin(w)
  }

  lemma {:induction false} BuiltinGoesToShell(line: string, multi: bool, shell: string, w: string)
    requires IsFirst(line, multi, w) && Builtin(w)
    ensures !Run(line, multi, shell, START).Words?
  {
    NothingQuoted(w);
    FirstWord(line, multi, shell, START, w);
    FirstIsNoBuiltin(line, multi, shell, START);
    hide Run;
  }

  /** Each of these words goes to the shell. */
  lemma {:induction false} BuiltinNeedsShell(line: string, multi: bool, shell: string, w: string)
    requires w in [".", ":", "break", "case", "cd", "continue", "eval", "exec", "exit", "export", "for", "if", "login", "logout",
                   "read", "readonly", "set", "shift", "switch", "test", "times", "trap", "umask", "wait", "while"]
    requires w <= line && (|w| == |line| || IsBlank(line[|w|]) || (multi && line[|w|] == '\n'))
    ensures !Run(line, multi, shell, START).Words? && BeginsWithBuiltin(line, multi)
  {
    assert Builtin(w);
    assert IsFirst(line, multi, w);
    BuiltinGoesToShell(line, multi, shell, w);
    hide Run;
  }

  lemma {:induction false} NothingQuoted(w: string)
    requires Builtin(w)
    ensures w != "" && forall j :: 0 <= j < |w| ==> w[j] !in " \t'\"\\\n"
  {
    hide SpecialBuiltin, OrdinaryBuiltin, Reserved;
    if SpecialBuiltin(w) {
      SpecialUnquoted(w);
    } else if OrdinaryBuiltin(w) {
      OrdinaryUnquoted(w);
    } else {
      ReservedUnquoted(w);
    }
  }

  lemma {:induction false} SpecialUnquoted(w: string)
    requires SpecialBuiltin(w)
    ensures w != "" && forall j :: 0 <= j < |w| ==> w[j] !in " \t'\"\\\n"
  {
  }

  lemma {:induction false} OrdinaryUnquoted(w: string)
    requires OrdinaryBuiltin(w)
    ensures w != "" && forall j :: 0 <= j < |w| ==> w[j] !in " \t'\"\\\n"
  {
  }

  lemma {:induction false} ReservedUnquoted(w: string)
    requires Reserved(w)
    ensures w != "" && forall j :: 0 <= j < |w| ==> w[j] !in " \t'\"\\\n"
  {
  }
}
