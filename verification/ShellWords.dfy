/** The loop that splits a command line into words without a shell. */
module ShellWords {
  import opened Wrappers
  import opened Tokens
  import opened ShellSyntax
  import opened ShellScan
  import opened ShellMeaning

  /** Characters a scan has written so far, with the nulls behind the words. */
  function Written(words: seq<string>): nat {
    if words == [] then 0 else Written(words[..|words| - 1]) + |words[|words| - 1]| + 1
  }

  lemma {:induction false} WrittenMore(words: seq<string>, w: string)
    ensures Written(words + [w]) == Written(words) + |w| + 1
  {
    assert (words + [w])[..|words|] == words;
  }

  /** A scan never writes more than it reads, and never finds more words than characters. */
  predicate Fits(line: string, s: Scan) {
    s.p <= |line| && Written(s.words) + |s.cur| <= s.p && (s.words != [] ==> |s.words| < s.p)
  }

  lemma {:induction false} TurnFits(line: string, multi: bool, shell: string, s: Scan)
    requires s.p < |line| && !IsBlank(line[0]) && Fits(line, s)
    ensures var n := Turn(line, multi, shell, s); n.Go? ==> Fits(line, n.to)
  {
    hide Fits, Quoted, Unquoted;
    if s.quote.Some? {
      QuotedFits(line, multi, s);
    } else {
      UnquotedFits(line, multi, shell, s);
    }
  }

  lemma {:induction false} QuotedFits(line: string, multi: bool, s: Scan)
    requires s.p < |line| && s.quote.Some? && Fits(line, s)
    ensures Quoted(line, multi, s).Go? ==> Fits(line, Quoted(line, multi, s).to)
  {
    hide Written;
  }

  lemma {:induction false} UnquotedFits(line: string, multi: bool, shell: string, s: Scan)
    requires s.p < |line| && s.quote.None? && !IsBlank(line[0]) && Fits(line, s)
    ensures Unquoted(line, multi, shell, s).Go? ==> Fits(line, Unquoted(line, multi, shell, s).to)
  {
    hide Written, Backslash, Blank;
    BackslashFits(line, shell, s);
    if IsBlank(line[s.p]) {
      BlankFits(line, s);
    }
  }

  lemma {:induction false} BackslashFits(line: string, shell: string, s: Scan)
    requires s.p < |line| && Fits(line, s)
    ensures Fits(line, Backslash(line, shell, s))
  {
    hide Written;
  }

  lemma {:induction false} BlankFits(line: string, s: Scan)
    requires s.p < |line| && IsBlank(line[s.p]) && !IsBlank(line[0]) && Fits(line, s)
    ensures Blank(line, s).Go? ==> Fits(line, Blank(line, s).to)
  {
    hide Written;
    WrittenMore(s.words, s.cur);
    assert BlankEnd(line, s.p) == BlankEnd(line, s.p + 1);
  }

  lemma {:induction false} WrittenNothing()
    ensures Written([]) == 0
  {
  }

  // ----- the loop

  /** Inside quotes. */
  method CopyQuoted(line: string, multi: bool, s: Scan) returns (n: Next)
    requires s.p < |line| && s.quote.Some?
    ensures n == Quoted(line, multi, s)
  {
    var p, cur, instring := s.p, s.cur, s.quote;
    var lastEmpty := s.lastEmpty;
    if line[p] == instring.value {
      instring := None;
      if cur == "" {
        lastEmpty := true;
      }
    } else if line[p] == '\\' && At(line, p + 1) == '\n' {
      if instring.value == '"' {
        p := p + 1;
      } else {
        cur := cur + [line[p]] + [line[p + 1]];
        p := p + 1;
      }
      if At(line, p + 1) == '\t' {
        p := p + 1;
      }
    } else if line[p] == '\n' && multi {
      return EndOfLine;
    } else if instring.value == '"' && line[p] in "\\$`" {
      return UseShell;
    } else {
      cur := cur + [line[p]];
    }
    return Go(Scan(p + 1, s.words, cur, instring, s.hasEquals, s.seenNonequals, lastEmpty));
  }

  /** Inside quotes.  Whatever is copied there is what the rules of the shell take it for; the only
      text that is left to the shell is an expansion or a backslash in double quotes. */
  method ScanQuoted(line: string, multi: bool, s: Scan) returns (n: Next)
    requires s.p < |line| && s.quote.Some?
    ensures n == Quoted(line, multi, s)
    ensures n.Go? ==> Adds(line, s, n.to) && Meant(line, multi, n.to) == Meant(line, multi, s)
    ensures n.EndOfLine? ==> multi && line[s.p] == '\n'
    ensures n.UseShell? ==> s.quote == Some('"') && line[s.p] in "\\$`"
  {
    n := CopyQuoted(line, multi, s);
    if n.Go? {
      QuotedMeans(line, multi, s, n.to);
    }
    hide Adds, Meant;
  }

  /** A backslash outside of quotes. */
  method ScanBackslash(line: string, shell: string, s: Scan) returns (t: Scan)
    requires s.p < |line| && line[s.p] == '\\'
    ensures t == Backslash(line, shell, s)
  {
    var p, cur := s.p, s.cur;
    if At(line, p + 1) == '\n' {
      p := p + 1;
      if At(line, p + 1) == '\t' {
        p := p + 1;
      }
      if cur == "" {
        p := NextToken(line, p + 1);
        p := p - 1;
      }
    } else if shell <= line && At(line, p + 1) != '\0' {
      p := p + 1;
      cur := cur + [line[p]];
    } else {
      cur := cur + [line[p]];
    }
    return s.(p := p + 1, cur := cur);
  }

  /** The end of a word. */
  method ScanBlank(line: string, s: Scan) returns (n: Next)
    requires s.p < |line| && IsBlank(line[s.p])
    ensures n == Blank(line, s)
  {
    var words := s.words + [s.cur];
    var seenNonequals := s.seenNonequals || !s.hasEquals;
    if s.hasEquals && !seenNonequals {
      return UseShell;
    }
    if |words| == 1 {
      var builtin := IsBuiltin(words[0]);
      if builtin {
        return UseShell;
      }
    }
    var p := NextToken(line, s.p);
    return Go(Scan(p, words, "", None, false, seenNonequals, false));
  }

  /** Outside of quotes. */
  method ScanUnquoted(line: string, multi: bool, shell: string, s: Scan) returns (n: Next)
    requires s.p < |line| && s.quote.None?
    ensures n == Unquoted(line, multi, shell, s)
  {
    hide Backslash, Blank;
    var p, cur, instring, hasEquals := s.p, s.cur, s.quote, s.hasEquals;
    var c := line[p];
    if ShChar(c) {
      return UseShell;
    } else if c == '=' {
      if !s.seenNonequals {
        return UseShell;
      }
      hasEquals := true;
      cur := cur + ['='];
    } else if c == '\\' {
      var t := ScanBackslash(line, shell, s);
      return Go(t);
    } else if c == '\'' || c == '"' {
      instring := Some(c);
    } else if c == '\n' && multi {
      return EndOfLine;
    } else if IsBlank(c) {
      n := ScanBlank(line, s);
      return;
    } else {
      cur := cur + [c];
    }
    return Go(s.(p := p + 1, cur := cur, quote := instring, hasEquals := hasEquals));
  }

  /** Compares a command with the table of shell builtins. */
  method IsBuiltin(command: string) returns (builtin: bool)
    ensures builtin <==> command in SH_CMDS
  {
    var j := 0;
    while j < |SH_CMDS|
      invariant j <= |SH_CMDS| && command !in SH_CMDS[..j]
    {
      if SH_CMDS[j] == command {
        return true;
      }
      j := j + 1;
    }
    return false;
  }

  /** Splits a line without the shell, as far as that is safe.  Buffers as long as the line with
      its null hold the words and the vector. */
  method FastPath(line: string, multi: bool, shell: string) returns (o: Outcome)
    requires line != "" && !IsBlank(line[0]) && '\0' !in line
    ensures o == Run(line, multi, shell, START)
    ensures o.Words? ==>
      (o == Outcome.Words(WordsOf(line, multi), Lex(line, multi, 0, None).rest) <==> Regular(line, multi, shell, START))
    ensures o.Words? ==> Written(o.words) <= |line| + 1 && |o.words| <= |line|
  {
    hide Run, Turn, Quoted, Unquoted, Written, Lex, Fields, Apart, HasEscaped, Regular, WordsOf, Meant, Adds;
    if Run(line, multi, shell, START).Words? {
      SplitExact(line, multi, shell);
    }
    WrittenNothing();
    var s := START;
    while s.p < |line|
      invariant Fits(line, s)
      invariant Run(line, multi, shell, s) == Run(line, multi, shell, START)
      decreases |line| - s.p
    {
      RunTurn(line, multi, shell, s);
      TurnFits(line, multi, shell, s);
      var n;
      if s.quote.Some? {
        n := ScanQuoted(line, multi, s);
      } else {
        n := ScanUnquoted(line, multi, shell, s);
      }
      TurnIs(line, multi, shell, s);
      match n
      case UseShell => return NeedShell(None);
      case EndOfLine => o := LastWord(line, s, Some(s.p)); return;
      case Go(t) => s := t;
    }
    RunEnd(line, multi, shell, s);
    o := LastWord(line, s, None);
  }

  /** Terminates the last word. */
  method LastWord(line: string, s: Scan, rest: Option<nat>) returns (o: Outcome)
    requires line != "" && Fits(line, s)
    ensures o == Finish(s, rest)
    ensures o.Words? ==> Written(o.words) <= |line| + 1 && |o.words| <= |line|
  {
    hide Written;
    WrittenMore(s.words, s.cur);
    if s.quote.Some? {
      return NeedShell(rest);
    }
    var words := s.words;
    if s.cur != "" || s.lastEmpty {
      words := words + [s.cur];
    }
    assert words == s.words + if s.cur != "" || s.lastEmpty then [s.cur] else [];
    if |words| == 1 {
      var builtin := IsBuiltin(words[0]);
      if builtin {
        return NeedShell(rest);
      }
    }
    return Words(words, rest);
  }
}
