/** When the words the scan finds are those the quoting rules of the shell give. */
module ShellMeaning {
  import opened Wrappers
  import opened Tokens
  import opened ShellSyntax
  import opened ShellScan

  /** The word in progress: even an empty one, if it was in quotes. */
  function Pending(s: Scan): Option<string> {
    if s.cur != "" || s.lastEmpty then Some(s.cur) else None
  }

  /** What the rest of a line comes to by the rules, behind what the scan has found so far. */
  function Meant(line: string, multi: bool, s: Scan): Outcome {
    MeantWith(line, multi, s, s.words, Pending(s))
  }

  function MeantWith(line: string, multi: bool, s: Scan, words: seq<string>, cur: Option<string>): Outcome {
    var l := Lex(line, multi, s.p, s.quote);
    Words(words + Fields(l.lexemes, cur), l.rest)
  }

  /** What the scan gets right of the rest of a line: backslashes outside of quotes only in a line
      that begins with the name of the shell, and otherwise only in front of a newline or at the
      end; newlines outside of quotes only where they end the command; and no empty word in quotes
      joined to the separator behind it. */
  predicate Regular(line: string, multi: bool, shell: string, s: Scan) {
    var l := Lex(line, multi, s.p, s.quote);
    (shell <= line || !HasEscaped(l.lexemes)) && (multi || l.rest.None?) && Apart(l.lexemes, Pending(s))
  }

  /** Between words the scan does not stand at a blank. */
  predicate AtWord(line: string, s: Scan) {
    s.p <= |line| && (s.quote.None? && Pending(s).None? && s.p < |line| ==> !IsBlank(line[s.p]))
  }

  // ----- what a scan has found stays found

  predicate Keeps(s: Scan, o: Outcome) {
    o.Words? ==>
      s.words <= o.words && (o.rest.Some? ==> s.p <= o.rest.value) &&
      (Pending(s).Some? ==> |s.words| < |o.words| && s.cur <= o.words[|s.words|])
  }

  lemma {:induction false} RunKeeps(line: string, multi: bool, shell: string, s: Scan)
    ensures Keeps(s, Run(line, multi, shell, s))
    ensures !multi && Run(line, multi, shell, s).Words? ==> Run(line, multi, shell, s).rest.None?
    decreases |line| - s.p
  {
    if s.p >= |line| {
      RunEnd(line, multi, shell, s);
    } else {
      RunTurn(line, multi, shell, s);
      TurnIs(line, multi, shell, s);
      hide Run, Turn;
      match Turn(line, multi, shell, s)
      case Go(t) =>
        RunKeeps(line, multi, shell, t);
        TurnKeeps(line, multi, shell, s, t);
        StillKeeps(s, t, Run(line, multi, shell, t));
      case EndOfLine => NewlineEnds(line, multi, shell, s);
      case UseShell =>
    }
  }

  lemma {:induction false} NewlineEnds(line: string, multi: bool, shell: string, s: Scan)
    requires s.p < |line| && Turn(line, multi, shell, s).EndOfLine?
    ensures multi && line[s.p] == '\n'
  {
    hide ShChar;
  }

  predicate Grows(s: Scan, t: Scan) {
    s.p <= t.p &&
    ((t.words == s.words && s.cur <= t.cur && (Pending(s).Some? ==> Pending(t).Some?)) || t.words == s.words + [s.cur])
  }

  lemma {:induction false} TurnKeeps(line: string, multi: bool, shell: string, s: Scan, t: Scan)
    requires s.p < |line| && Turn(line, multi, shell, s) == Go(t)
    ensures Grows(s, t)
  {
    TurnIs(line, multi, shell, s);
    hide Turn, Quoted, Unquoted, Grows;
    if s.quote.Some? {
      QuotedKeeps(line, multi, s, t);
    } else {
      BareKeeps(line, multi, shell, s, t);
    }
  }

  lemma {:induction false} QuotedKeeps(line: string, multi: bool, s: Scan, t: Scan)
    requires s.p < |line| && s.quote.Some? && Quoted(line, multi, s) == Go(t)
    ensures Grows(s, t)
  {
  }

  lemma {:induction false} BareKeeps(line: string, multi: bool, shell: string, s: Scan, t: Scan)
    requires s.p < |line| && s.quote.None? && Unquoted(line, multi, shell, s) == Go(t)
    ensures Grows(s, t)
  {
    BackslashKeeps(line, shell, s);
    hide ShChar, Backslash, BlankEnd, IsBlank;
  }

  lemma {:induction false} BackslashKeeps(line: string, shell: string, s: Scan)
    requires s.p < |line|
    ensures Grows(s, Backslash(line, shell, s))
  {
    hide BlankEnd;
  }

  lemma {:induction false} StillKeeps(s: Scan, t: Scan, o: Outcome)
    requires Grows(s, t) && Keeps(t, o)
    ensures Keeps(s, o)
  {
    if o.Words? && t.words != s.words {
      assert t.words[|s.words|] == s.cur;
      assert o.words[|s.words|] == s.cur;
    }
  }

  /** Two outcomes that part company inside a word. */
  lemma {:induction false} PartWays(line: string, multi: bool, shell: string, t: Scan, m: Outcome, y: string, k: nat)
    requires Run(line, multi, shell, t).Words? && m.Words?
    requires k < |y| && k < |t.cur| && y[k] != t.cur[k]
    requires t.words <= m.words && |t.words| < |m.words| && y <= m.words[|t.words|]
    ensures Run(line, multi, shell, t) != m
  {
    RunKeeps(line, multi, shell, t);
    hide Run;
  }

  // ----- turns that go along with the rules

  /** Everything but blanks, newlines and backslash-newlines outside of quotes, and backslashes
      that the scan does not heed there. */
  predicate Ordinary(line: string, shell: string, s: Scan)
    requires s.p < |line|
  {
    s.quote.Some? ||
    (line[s.p] != '\n' && !IsBlank(line[s.p]) &&
     (line[s.p] == '\\' ==> At(line, s.p + 1) != '\n' && (shell <= line || s.p + 1 == |line|)))
  }

  /** What an ordinary turn makes of a word: text more, or the end of a quotation. */
  function Advance(cur: Option<string>, d: string, closed: bool): Option<string> {
    if d == "" && !closed then cur else Some(TextOf(cur) + d)
  }

  /** What an ordinary turn adds to the word. */
  function Added(line: string, s: Scan): string
    requires s.p < |line|
  {
    var c := line[s.p];
    if s.quote.Some? then
      if c == s.quote.value then ""
      else if c == '\\' && At(line, s.p + 1) == '\n' then (if s.quote.value == '"' then "" else "\\\n")
      else [c]
    else if c == '\'' || c == '"' then ""
    else if c == '\\' && s.p + 1 < |line| then [line[s.p + 1]]
    else [c]
  }

  predicate Closes(line: string, s: Scan)
    requires s.p < |line|
  {
    s.quote == Some(line[s.p])
  }

  /** A turn of the scan and what it adds to the word. */
  predicate Adds(line: string, s: Scan, t: Scan)
    requires s.p < |line|
  {
    t.words == s.words && t.cur == s.cur + Added(line, s) &&
    Pending(t) == Advance(Pending(s), Added(line, s), Closes(line, s)) && t.p <= |line| &&
    (s.quote.Some? && !Closes(line, s) ==> t.quote.Some?) && (s.quote.None? && t.quote.None? ==> Added(line, s) != "")
  }

  lemma {:induction false} OrdinaryTurn(line: string, multi: bool, shell: string, s: Scan, t: Scan)
    requires s.p < |line| && '\0' !in line && Ordinary(line, shell, s) && Turn(line, multi, shell, s) == Go(t)
    ensures Adds(line, s, t)
  {
    hide Adds, Quoted, Unquoted;
    if s.quote.Some? {
      QuotedAdds(line, multi, s, t);
    } else {
      BareAdds(line, multi, shell, s, t);
    }
  }

  lemma {:induction false} QuotedAdds(line: string, multi: bool, s: Scan, t: Scan)
    requires s.p < |line| && s.quote.Some? && Quoted(line, multi, s) == Go(t)
    ensures Adds(line, s, t)
  {
    assert s.cur + "" == s.cur;
  }

  lemma {:induction false} BareAdds(line: string, multi: bool, shell: string, s: Scan, t: Scan)
    requires s.p < |line| && '\0' !in line && s.quote.None? && Ordinary(line, shell, s) && Unquoted(line, multi, shell, s) == Go(t)
    ensures Adds(line, s, t)
  {
    hide ShChar, IsBlank, BlankEnd, Blank;
    assert At(line, s.p + 1) == '\0' ==> s.p + 1 >= |line|;
    assert s.cur + "" == s.cur;
  }

  lemma {:induction false} NoSeparatorInQuotes(line: string, multi: bool, p: nat, q: char)
    ensures var ms := Lex(line, multi, p, Some(q)).lexemes; ms != [] ==> !ms[0].Separator?
  {
  }

  lemma {:induction false} LexStep(line: string, multi: bool, p: nat, quote: Option<char>)
    requires p < |line|
    ensures Lex(line, multi, p, quote) ==
            if quote.Some? then LexQuoted(line, multi, p, quote.value) else LexBare(line, multi, p)
  {
  }

  /** The lexemes an ordinary turn stands for. */
  lemma {:induction false} OrdinaryLexemes(line: string, multi: bool, shell: string, s: Scan, t: Scan, cur: Option<string>)
    requires s.p < |line| && '\0' !in line && Ordinary(line, shell, s) && Turn(line, multi, shell, s) == Go(t)
    ensures var l, m, cur' := Lex(line, multi, s.p, s.quote), Lex(line, multi, t.p, t.quote), Advance(cur, Added(line, s), Closes(line, s));
            Fields(l.lexemes, cur) == Fields(m.lexemes, cur') && l.rest == m.rest &&
            (Apart(l.lexemes, cur) <==> Apart(m.lexemes, cur')) &&
            (shell <= line || (HasEscaped(l.lexemes) <==> HasEscaped(m.lexemes)))
  {
    LexStep(line, multi, s.p, s.quote);
    hide Fields, Apart, HasEscaped, Lex;
    if s.quote.Some? {
      QuotedLexemes(line, multi, s, t, cur);
    } else {
      BareLexemes(line, multi, shell, s, t, cur);
    }
  }

  predicate IsJoined(line: string, s: Scan) {
    At(line, s.p) == '\\' && At(line, s.p + 1) == '\n'
  }

  lemma {:induction false} QuotedLexed(line: string, multi: bool, s: Scan, t: Scan)
    requires s.p < |line| && s.quote.Some? && Quoted(line, multi, s) == Go(t)
    ensures var l, m, c := LexQuoted(line, multi, s.p, s.quote.value), Lex(line, multi, t.p, t.quote), line[s.p];
            if Closes(line, s) then l == Then(Closed, m) && Added(line, s) == ""
            else if !IsJoined(line, s) then l == Then(Literal(c), m) && Added(line, s) == [c]
            else if s.quote == Some('"') then l == Then(Joined, m) && Added(line, s) == "" && t.quote == s.quote
            else l == Then(Literal('\\'), Then(Literal('\n'), m)) && Added(line, s) == "\\\n"
  {
    hide Lex, Then;
  }

  lemma {:induction false} QuotedLexemes(line: string, multi: bool, s: Scan, t: Scan, cur: Option<string>)
    requires s.p < |line| && s.quote.Some? && Quoted(line, multi, s) == Go(t)
    ensures var l, m, cur' := LexQuoted(line, multi, s.p, s.quote.value), Lex(line, multi, t.p, t.quote), Advance(cur, Added(line, s), Closes(line, s));
            Fields(l.lexemes, cur) == Fields(m.lexemes, cur') && l.rest == m.rest &&
            (Apart(l.lexemes, cur) <==> Apart(m.lexemes, cur')) && (HasEscaped(l.lexemes) <==> HasEscaped(m.lexemes))
  {
    hide *;
    QuotedLexed(line, multi, s, t);
    var m := Lex(line, multi, t.p, t.quote);
    if Closes(line, s) {
      OneLexeme(Closed, m, cur, "", true);
    } else if !IsJoined(line, s) {
      OneLexeme(Literal(line[s.p]), m, cur, [line[s.p]], false);
    } else if s.quote == Some('"') {
      NoSeparatorInQuotes(line, multi, t.p, '"');
      OneLexeme(Joined, m, cur, "", false);
    } else {
      AdvanceTwice(cur, "\\", "\n");
      assert "\\" + "\n" == "\\\n";
      OneLexeme(Literal('\n'), m, Advance(cur, "\\", false), "\n", false);
      OneLexeme(Literal('\\'), Then(Literal('\n'), m), cur, "\\", false);
    }
  }

  lemma {:induction false} AdvanceTwice(cur: Option<string>, c: string, d: string)
    requires c != "" && d != ""
    ensures Advance(Advance(cur, c, false), d, false) == Advance(cur, c + d, false)
  {
    assert TextOf(cur) + c + d == TextOf(cur) + (c + d);
  }

  /** One lexeme and what it adds to the word. */
  lemma {:induction false} OneLexeme(m: Lexeme, l: Lexed, cur: Option<string>, d: string, closed: bool)
    requires match m case Literal(c) => d == [c] && !closed case Escaped(c) => d == [c] && !closed
                     case Closed => d == "" && closed case Separator => false case Joined => d == "" && !closed
    requires m.Joined? && l.lexemes != [] ==> !l.lexemes[0].Separator?
    ensures var cur' := Advance(cur, d, closed);
            Fields(Then(m, l).lexemes, cur) == Fields(l.lexemes, cur') && Then(m, l).rest == l.rest &&
            (Apart(Then(m, l).lexemes, cur) <==> Apart(l.lexemes, cur')) &&
            (HasEscaped(Then(m, l).lexemes) <==> m.Escaped? || HasEscaped(l.lexemes))
  {
    FieldsStep(m, l.lexemes, cur);
    hide Fields, Apart, HasEscaped;
    assert TextOf(cur) + "" == TextOf(cur);
  }

  lemma {:induction false} BareLexed(line: string, multi: bool, shell: string, s: Scan, t: Scan)
    requires s.p < |line| && s.quote.None? && '\0' !in line && Ordinary(line, shell, s) && Unquoted(line, multi, shell, s) == Go(t)
    ensures var l, m, c := LexBare(line, multi, s.p), Lex(line, multi, t.p, t.quote), line[s.p];
            if c == '\'' || c == '"' then l == m && Added(line, s) == ""
            else if c == '\\' && s.p + 1 < |line| then shell <= line && l == Then(Escaped(line[s.p + 1]), m) && Added(line, s) == [line[s.p + 1]]
            else l == Then(Literal(c), m) && Added(line, s) == [c]
  {
    hide Lex, Then, ShChar, Blank, BlankEnd;
    assert At(line, s.p + 1) == '\0' ==> s.p + 1 >= |line|;
  }

  lemma {:induction false} BareLexemes(line: string, multi: bool, shell: string, s: Scan, t: Scan, cur: Option<string>)
    requires s.p < |line| && s.quote.None? && '\0' !in line && Ordinary(line, shell, s) && Unquoted(line, multi, shell, s) == Go(t)
    ensures var l, m, cur' := LexBare(line, multi, s.p), Lex(line, multi, t.p, t.quote), Advance(cur, Added(line, s), false);
            Fields(l.lexemes, cur) == Fields(m.lexemes, cur') && l.rest == m.rest &&
            (Apart(l.lexemes, cur) <==> Apart(m.lexemes, cur')) &&
            (shell <= line || (HasEscaped(l.lexemes) <==> HasEscaped(m.lexemes)))
  {
    hide *;
    BareLexed(line, multi, shell, s, t);
    AdvanceNothing(cur);
    var m, c := Lex(line, multi, t.p, t.quote), line[s.p];
    if c == '\'' || c == '"' {
    } else if c == '\\' && s.p + 1 < |line| {
      OneLexeme(Escaped(line[s.p + 1]), m, cur, [line[s.p + 1]], false);
    } else {
      OneLexeme(Literal(c), m, cur, [c], false);
    }
  }

  lemma {:induction false} AdvanceNothing(cur: Option<string>)
    ensures Advance(cur, "", false) == cur
  {
  }

  /** A turn inside quotes takes the text for what the rules say it is. */
  lemma {:induction false} QuotedMeans(line: string, multi: bool, s: Scan, t: Scan)
    requires s.p < |line| && s.quote.Some? && Quoted(line, multi, s) == Go(t)
    ensures Adds(line, s, t) && Meant(line, multi, t) == Meant(line, multi, s)
  {
    LexStep(line, multi, s.p, s.quote);
    QuotedAdds(line, multi, s, t);
    hide Lex, Fields, Apart, HasEscaped, Quoted;
    QuotedLexemes(line, multi, s, t, Pending(s));
  }

  // ----- the other turns

  /** Blanks between words. */
  lemma {:induction false} BlankLexemes(line: string, multi: bool, p: nat)
    requires p <= |line|
    ensures var l, m := Lex(line, multi, p, None), Lex(line, multi, BlankEnd(line, p), None);
            Fields(l.lexemes, None) == Fields(m.lexemes, None) && l.rest == m.rest &&
            (Apart(l.lexemes, None) <==> Apart(m.lexemes, None)) && (HasEscaped(l.lexemes) <==> HasEscaped(m.lexemes))
    decreases |line| - p
  {
    hide Fields, Apart, HasEscaped;
    if p < |line| && IsBlank(line[p]) {
      BlankLexemes(line, multi, p + 1);
      SeparatorStep(line, multi, p, None);
    }
  }

  lemma {:induction false} SeparatorStep(line: string, multi: bool, p: nat, cur: Option<string>)
    requires p < |line| && IsBlank(line[p])
    ensures var l, m := Lex(line, multi, p, None), Lex(line, multi, p + 1, None);
            l == Then(Separator, m) && Fields(l.lexemes, cur) == WordOf(cur) + Fields(m.lexemes, None) &&
            (Apart(l.lexemes, cur) <==> Apart(m.lexemes, None)) && (HasEscaped(l.lexemes) <==> HasEscaped(m.lexemes))
  {
    LexStep(line, multi, p, None);
    hide Fields, Apart, HasEscaped, Lex;
    FieldsStep(Separator, Lex(line, multi, p + 1, None).lexemes, cur);
  }

  /** Blanks behind a word. */
  lemma {:induction false} WordEnd(line: string, multi: bool, p: nat, cur: Option<string>)
    requires p < |line| && IsBlank(line[p])
    ensures var l, m := Lex(line, multi, p, None), Lex(line, multi, BlankEnd(line, p), None);
            Fields(l.lexemes, cur) == WordOf(cur) + Fields(m.lexemes, None) && l.rest == m.rest &&
            (Apart(l.lexemes, cur) <==> Apart(m.lexemes, None)) && (HasEscaped(l.lexemes) <==> HasEscaped(m.lexemes))
  {
    hide Fields, Apart, HasEscaped, Lex;
    SeparatorStep(line, multi, p, cur);
    BlankLexemes(line, multi, p + 1);
    assert BlankEnd(line, p) == BlankEnd(line, p + 1);
  }

  lemma {:induction false} BlankTurnIs(line: string, multi: bool, shell: string, s: Scan, t: Scan)
    requires s.p < |line| && s.quote.None? && IsBlank(line[s.p]) && Turn(line, multi, shell, s) == Go(t)
    ensures t.p == BlankEnd(line, s.p) && t.words == s.words + [s.cur] && t.cur == "" && t.quote.None? && !t.lastEmpty
  {
    OrdinaryChars();
    hide ShChar;
  }

  /** Where a backslash-newline lets the scan go on. */
  function JoinedAt(line: string, s: Scan): nat {
    var q := AfterTab(line, s.p + 2);
    if s.cur == "" && q <= |line| then BlankEnd(line, q) else q
  }

  predicate JoinsAt(line: string, s: Scan) {
    s.quote.None? && At(line, s.p) == '\\' && At(line, s.p + 1) == '\n'
  }

  lemma {:induction false} JoinedTurn(line: string, multi: bool, shell: string, s: Scan)
    requires JoinsAt(line, s)
    ensures s.p + 2 <= AfterTab(line, s.p + 2) <= |line| && Turn(line, multi, shell, s) == Go(s.(p := JoinedAt(line, s)))
    ensures JoinedAt(line, s) == if s.cur == "" then BlankEnd(line, AfterTab(line, s.p + 2)) else AfterTab(line, s.p + 2)
    ensures Lex(line, multi, s.p, None) == Then(Joined, Lex(line, multi, AfterTab(line, s.p + 2), None))
  {
    OrdinaryChars();
    LexStep(line, multi, s.p, None);
    hide ShChar, Lex;
  }

  /** A backslash-newline between words, or behind a word that is not empty. */
  lemma {:induction false} JoinedLexemes(line: string, multi: bool, s: Scan, cur: Option<string>)
    requires JoinsAt(line, s) && (if s.cur == "" then cur.None? else cur.Some? && cur != Some(""))
    ensures s.p + 2 <= AfterTab(line, s.p + 2) <= |line|
    ensures var l, m := Lex(line, multi, s.p, None), Lex(line, multi, JoinedAt(line, s), None);
            Fields(l.lexemes, cur) == Fields(m.lexemes, cur) && l.rest == m.rest &&
            (Apart(l.lexemes, cur) <==> Apart(m.lexemes, cur)) && (HasEscaped(l.lexemes) <==> HasEscaped(m.lexemes))
  {
    JoinedTurn(line, multi, "", s);
    hide Fields, Apart, HasEscaped, Lex;
    var q := AfterTab(line, s.p + 2);
    FieldsStep(Joined, Lex(line, multi, q, None).lexemes, cur);
    if s.cur == "" {
      BlankLexemes(line, multi, q);
    }
  }

  lemma {:induction false} BlankEndAt(line: string, q: nat)
    requires q <= |line|
    ensures q < |line| && !IsBlank(line[q]) ==> BlankEnd(line, q) == q
    ensures q == |line| ==> BlankEnd(line, q) == q
  {
  }

  lemma {:induction false} NewlineLexed(line: string, multi: bool, p: nat)
    requires p < |line| && line[p] == '\n'
    ensures Lex(line, multi, p, None) == Lexed([], Some(p))
  {
  }

  // ----- a backslash the scan does not heed

  predicate Stray(line: string, shell: string, s: Scan) {
    s.quote.None? && s.p + 1 < |line| && line[s.p] == '\\' && line[s.p + 1] != '\n' && line[s.p + 1] != '\0' && !(shell <= line)
  }

  lemma {:induction false} BackslashTurn(line: string, multi: bool, shell: string, s: Scan)
    requires s.quote.None? && s.p < |line| && line[s.p] == '\\'
    ensures Turn(line, multi, shell, s) == Go(Backslash(line, shell, s))
  {
    OrdinaryChars();
    hide ShChar, Backslash, Quoted, Blank;
  }

  lemma {:induction false} StrayTurn(line: string, multi: bool, shell: string, s: Scan)
    requires Stray(line, shell, s)
    ensures Run(line, multi, shell, s) == Run(line, multi, shell, s.(p := s.p + 1, cur := s.cur + "\\"))
    ensures Lex(line, multi, s.p, None) == Then(Escaped(line[s.p + 1]), Lex(line, multi, s.p + 2, None))
    ensures HasEscaped(Lex(line, multi, s.p, None).lexemes)
  {
    UnheededBackslash(line, multi, shell, s);
    LexStep(line, multi, s.p, None);
    hide Run, Lex;
    assert Lex(line, multi, s.p, None).lexemes[0].Escaped?;
  }

  /** Such a backslash is copied, as is one at the end. */
  lemma {:induction false} UnheededBackslash(line: string, multi: bool, shell: string, t: Scan)
    requires t.quote.None? && t.p < |line| && line[t.p] == '\\' && At(line, t.p + 1) != '\n' && !(shell <= line)
    ensures Run(line, multi, shell, t) == Run(line, multi, shell, t.(p := t.p + 1, cur := t.cur + "\\"))
  {
    BackslashTurn(line, multi, shell, t);
    assert Backslash(line, shell, t) == t.(p := t.p + 1, cur := t.cur + "\\");
    hide *;
    RunTurn(line, multi, shell, t);
  }

  predicate AllBackslashes(x: string, from: nat) {
    forall k :: from <= k < |x| ==> x[k] == '\\'
  }

  /** The scan's word is longer than the word meant by backslashes at its end. */
  predicate Longer(x: string, y: string) {
    y != "" && y <= x && |y| < |x| && AllBackslashes(x, |y|)
  }

  lemma {:induction false} StillLonger(x: string, y: string)
    requires Longer(x, y)
    ensures Longer(x + "\\", y + "\\") && Longer(x + "\\\\", y + "\\")
  {
    assert x[|y|] == '\\';
    assert (y + "\\") == x[..|y| + 1];
  }

  /** A word that has got longer is not what was meant. */
  lemma {:induction false} LongerDiffers(line: string, multi: bool, shell: string, s: Scan, y: string)
    requires '\0' !in line && !(shell <= line) && s.p <= |line| && Longer(s.cur, y) && Run(line, multi, shell, s).Words?
    ensures Run(line, multi, shell, s) != MeantWith(line, multi, s, s.words, Some(y))
    decreases |line| - s.p
  {
    hide Run, Lex, Fields, ShChar, Turn, Longer, HasEscaped, Apart;
    var l := Lex(line, multi, s.p, s.quote);
    FieldsBegin(l.lexemes, y);
    LongerShape(s.cur, y);
    if s.p == |line| {
      RunEnd(line, multi, shell, s);
      LexEnd(line, multi, s);
      FieldsEnd(Some(y));
      assert (s.words + [s.cur])[|s.words|] == s.cur && (s.words + [y])[|s.words|] == y;
    } else if Ordinary(line, shell, s) {
      LongerOrdinary(line, multi, shell, s, y);
    } else if JoinsAt(line, s) {
      JoinedTurn(line, multi, shell, s);
      RunTurn(line, multi, shell, s);
      JoinedLexemes(line, multi, s, Some(y));
      LongerDiffers(line, multi, shell, s.(p := JoinedAt(line, s)), y);
    } else if IsBlank(line[s.p]) {
      LongerBlank(line, multi, shell, s, y);
    } else if line[s.p] == '\n' {
      LongerNewline(line, multi, shell, s, y);
    } else {
      LongerStray(line, multi, shell, s, y);
    }
  }

  lemma {:induction false} LongerShape(x: string, y: string)
    requires Longer(x, y)
    ensures y != "" && x != "" && x != y && y <= x && |y| < |x| && x[|y|] == '\\'
  {
  }

  lemma {:induction false} LexEnd(line: string, multi: bool, s: Scan)
    requires s.p == |line|
    ensures Lex(line, multi, s.p, s.quote) == Lexed([], None)
  {
  }

  lemma {:induction false} LongerOrdinary(line: string, multi: bool, shell: string, s: Scan, y: string)
    requires '\0' !in line && !(shell <= line) && s.p < |line| && Longer(s.cur, y) && Run(line, multi, shell, s).Words?
    requires Ordinary(line, shell, s)
    ensures Run(line, multi, shell, s) != MeantWith(line, multi, s, s.words, Some(y))
    decreases |line| - s.p, 0
  {
    RunTurn(line, multi, shell, s);
    hide Run, Lex, Fields, ShChar, Longer, HasEscaped, Apart, Added;
    match Turn(line, multi, shell, s)
    case UseShell =>
    case EndOfLine =>
      NewlineEnds(line, multi, shell, s);
    case Go(t) =>
      TurnIs(line, multi, shell, s);
      hide Turn;
      OrdinaryTurn(line, multi, shell, s, t);
      OrdinaryLexemes(line, multi, shell, s, t, Some(y));
      AddedShape(line, shell, s);
      var d := Added(line, s);
      LongerShape(s.cur, y);
      if d == "" {
        assert y + d == y && s.cur + d == s.cur;
        LongerDiffers(line, multi, shell, t, y);
      } else if d == "\\" {
        StillLonger(s.cur, y);
        LongerDiffers(line, multi, shell, t, y + d);
      } else {
        FieldsBegin(Lex(line, multi, t.p, t.quote).lexemes, y + d);
        PartWays(line, multi, shell, t, MeantWith(line, multi, t, t.words, Some(y + d)), y + d, |y| + |d| - 1);
      }
  }

  lemma {:induction false} AddedShape(line: string, shell: string, s: Scan)
    requires s.p < |line| && Ordinary(line, shell, s)
    ensures |Added(line, s)| <= 1 || Added(line, s) == "\\\n"
  {
  }

  lemma {:induction false} LongerBlank(line: string, multi: bool, shell: string, s: Scan, y: string)
    requires s.p < |line| && Longer(s.cur, y) && Run(line, multi, shell, s).Words? && s.quote.None? && IsBlank(line[s.p])
    ensures Run(line, multi, shell, s) != MeantWith(line, multi, s, s.words, Some(y))
  {
    RunTurn(line, multi, shell, s);
    hide Run, Lex, Fields, ShChar, Longer, HasEscaped, Apart;
    match Turn(line, multi, shell, s)
    case UseShell =>
    case EndOfLine =>
      NewlineEnds(line, multi, shell, s);
    case Go(t) =>
      BlankTurnIs(line, multi, shell, s, t);
      hide Turn;
      WordEnd(line, multi, s.p, Some(y));
      LongerShape(s.cur, y);
      RunKeeps(line, multi, shell, t);
      assert t.words[|s.words|] == s.cur;
      assert MeantWith(line, multi, s, s.words, Some(y)).words[|s.words|] == y;
  }

  lemma {:induction false} LongerNewline(line: string, multi: bool, shell: string, s: Scan, y: string)
    requires s.p < |line| && Longer(s.cur, y) && Run(line, multi, shell, s).Words? && s.quote.None? && line[s.p] == '\n'
    ensures Run(line, multi, shell, s) != MeantWith(line, multi, s, s.words, Some(y))
  {
    RunTurn(line, multi, shell, s);
    NewlineLexed(line, multi, s.p);
    OrdinaryChars();
    RunKeeps(line, multi, shell, s);
    FieldsEnd(Some(y));
    LongerShape(s.cur, y);
    hide Run, Lex, Fields, ShChar, Longer;
  }

  lemma {:induction false} LongerStray(line: string, multi: bool, shell: string, s: Scan, y: string)
    requires '\0' !in line && Longer(s.cur, y) && Run(line, multi, shell, s).Words? && Stray(line, shell, s)
    ensures Run(line, multi, shell, s) != MeantWith(line, multi, s, s.words, Some(y))
    decreases |line| - s.p, 0
  {
    hide Run, Lex, Fields, ShChar, Longer, HasEscaped, Apart;
    var c := line[s.p + 1];
    StrayTurn(line, multi, shell, s);
    var after := Lex(line, multi, s.p + 2, None);
    FieldsStep(Escaped(c), after.lexemes, Some(y));
    LongerShape(s.cur, y);
    var t := s.(p := s.p + 1, cur := s.cur + "\\");
    FieldsBegin(after.lexemes, y + [c]);
    if c != '\\' {
      PartWays(line, multi, shell, t, MeantWith(line, multi, s, s.words, Some(y)), y + [c], |y|);
    } else if At(line, s.p + 2) == '\n' {
      JoinedPastNewline(line, multi, shell, t);
    } else {
      UnheededBackslash(line, multi, shell, t);
      StillLonger(s.cur, y);
      assert s.cur + "\\" + "\\" == s.cur + "\\\\" && [c] == "\\";
      LongerDiffers(line, multi, shell, s.(p := s.p + 2, cur := s.cur + "\\\\"), y + "\\");
    }
  }

  /** The rules see the end of the command where the scan sees a backslash-newline. */
  lemma {:induction false} JoinedPastNewline(line: string, multi: bool, shell: string, t: Scan)
    requires JoinsAt(line, t) && Run(line, multi, shell, t).Words?
    ensures Run(line, multi, shell, t).rest != Some(t.p + 1)
    ensures Lex(line, multi, t.p + 1, None).rest == Some(t.p + 1)
  {
    JoinedTurn(line, multi, shell, t);
    RunTurn(line, multi, shell, t);
    hide Run, Turn;
    RunKeeps(line, multi, shell, t.(p := JoinedAt(line, t)));
    NewlineLexed(line, multi, t.p + 1);
  }

  /** A backslash that is not heeded shows. */
  lemma {:induction false} StrayDiffers(line: string, multi: bool, shell: string, s: Scan)
    requires '\0' !in line && Stray(line, shell, s) && Run(line, multi, shell, s).Words?
    ensures Run(line, multi, shell, s) != Meant(line, multi, s)
  {
    hide Run, Lex, Fields, ShChar, HasEscaped, Apart;
    var c := line[s.p + 1];
    StrayTurn(line, multi, shell, s);
    var after := Lex(line, multi, s.p + 2, None);
    FieldsStep(Escaped(c), after.lexemes, Pending(s));
    var t := s.(p := s.p + 1, cur := s.cur + "\\");
    FieldsBegin(after.lexemes, s.cur + [c]);
    if c != '\\' {
      PartWays(line, multi, shell, t, Meant(line, multi, s), s.cur + [c], |s.cur|);
    } else if At(line, s.p + 2) == '\n' {
      JoinedPastNewline(line, multi, shell, t);
    } else {
      UnheededBackslash(line, multi, shell, t);
      assert s.cur + "\\" + "\\" == s.cur + "\\\\" && [c] == "\\";
      assert Longer(s.cur + "\\\\", s.cur + "\\");
      LongerDiffers(line, multi, shell, s.(p := s.p + 2, cur := s.cur + "\\\\"), s.cur + "\\");
    }
  }

  // ----- an empty word joined to the separator behind it

  function Empties(e: nat): (ws: seq<string>)
    ensures |ws| == e && forall k :: 0 <= k < e ==> ws[k] == ""
  {
    seq(e, _ => "")
  }

  lemma {:induction false} OneMoreEmpty(e: nat)
    ensures Empties(e) + [""] == Empties(e + 1) == [""] + Empties(e)
  {
  }

  /** By the rules there are more empty words than the scan has found, now or later. */
  predicate Behind(line: string, multi: bool, s: Scan, e: nat, cur: Option<string>) {
    s.p <= |line| && s.cur == "" && e >= 1 && (cur.None? || cur == Some("")) &&
    (s.lastEmpty && e + |WordOf(cur)| == 1 ==>
       Fields(Lex(line, multi, s.p, s.quote).lexemes, cur) != [] && (s.quote.None? && s.p < |line| ==> !IsBlank(line[s.p])))
  }

  /** An empty word that got lost shows, once another word follows. */
  lemma {:induction false} BehindDiffers(line: string, multi: bool, shell: string, s: Scan, e: nat, cur: Option<string>)
    requires '\0' !in line && AtWord(line, s) && Behind(line, multi, s, e, cur) && Run(line, multi, shell, s).Words?
    ensures Run(line, multi, shell, s) != MeantWith(line, multi, s, s.words + Empties(e), cur)
    decreases |line| - s.p
  {
    hide Run, Lex, Fields, ShChar, Turn, HasEscaped, Apart, Behind, AtWord, Empties;
    BehindShape(line, multi, s, e, cur);
    if s.p == |line| {
      BehindEnd(line, multi, shell, s, e, cur);
    } else if Ordinary(line, shell, s) {
      BehindOrdinary(line, multi, shell, s, e, cur);
    } else if JoinsAt(line, s) {
      BehindJoined(line, multi, shell, s, e, cur);
    } else if IsBlank(line[s.p]) {
      BehindBlank(line, multi, shell, s, e, cur);
    } else if line[s.p] == '\n' {
      BehindNewline(line, multi, shell, s, e, cur);
    } else {
      StrayTurn(line, multi, shell, s);
      EmptyDiffers(line, multi, shell, s.(p := s.p + 1, cur := s.cur + "\\"), e, MeantWith(line, multi, s, s.words + Empties(e), cur));
    }
  }

  lemma {:induction false} BehindShape(line: string, multi: bool, s: Scan, e: nat, cur: Option<string>)
    requires Behind(line, multi, s, e, cur)
    ensures s.p <= |line| && s.cur == "" && e >= 1 && (cur.None? || cur == Some(""))
  {
  }

  /** Where the scan finds text there should be an empty word. */
  lemma {:induction false} EmptyDiffers(line: string, multi: bool, shell: string, t: Scan, e: nat, m: Outcome)
    requires t.cur != "" && e >= 1 && Run(line, multi, shell, t).Words? && m.Words? && t.words + Empties(e) <= m.words
    ensures Run(line, multi, shell, t) != m
  {
    RunKeeps(line, multi, shell, t);
    hide Run;
    assert (t.words + Empties(e))[|t.words|] == "";
  }

  lemma {:induction false} BehindEnd(line: string, multi: bool, shell: string, s: Scan, e: nat, cur: Option<string>)
    requires Behind(line, multi, s, e, cur) && s.p == |line| && Run(line, multi, shell, s).Words?
    ensures Run(line, multi, shell, s) != MeantWith(line, multi, s, s.words + Empties(e), cur)
  {
    RunEnd(line, multi, shell, s);
    LexEnd(line, multi, s);
    FieldsEnd(cur);
    hide Run, Lex, Fields;
  }

  lemma {:induction false} BehindOrdinary(line: string, multi: bool, shell: string, s: Scan, e: nat, cur: Option<string>)
    requires '\0' !in line && AtWord(line, s) && Behind(line, multi, s, e, cur) && Run(line, multi, shell, s).Words?
    requires s.p < |line| && Ordinary(line, shell, s)
    ensures Run(line, multi, shell, s) != MeantWith(line, multi, s, s.words + Empties(e), cur)
    decreases |line| - s.p, 0
  {
    RunTurn(line, multi, shell, s);
    hide Run, Lex, Fields, ShChar, HasEscaped, Apart, Added, Empties;
    match Turn(line, multi, shell, s)
    case UseShell =>
    case EndOfLine =>
      NewlineEnds(line, multi, shell, s);
    case Go(t) =>
      TurnIs(line, multi, shell, s);
      hide Turn;
      OrdinaryTurn(line, multi, shell, s, t);
      OrdinaryLexemes(line, multi, shell, s, t, cur);
      var cur' := Advance(cur, Added(line, s), Closes(line, s));
      if Added(line, s) == "" {
        assert s.cur + "" == "" && t.words == s.words;
        assert Behind(line, multi, t, e, cur');
        BehindDiffers(line, multi, shell, t, e, cur');
      } else {
        EmptyDiffers(line, multi, shell, t, e, MeantWith(line, multi, s, s.words + Empties(e), cur));
      }
  }

  lemma {:induction false} BehindJoined(line: string, multi: bool, shell: string, s: Scan, e: nat, cur: Option<string>)
    requires '\0' !in line && Behind(line, multi, s, e, cur) && Run(line, multi, shell, s).Words? && JoinsAt(line, s)
    ensures Run(line, multi, shell, s) != MeantWith(line, multi, s, s.words + Empties(e), cur)
    decreases |line| - s.p, 0
  {
    hide *;
    QuoteOf(line, s);
    JoinedTurn(line, multi, shell, s);
    RunTurn(line, multi, shell, s);
    BehindShape(line, multi, s, e, cur);
    JoinedAtWord(line, s);
    var q := AfterTab(line, s.p + 2);
    var t := s.(p := JoinedAt(line, s));
    if cur.Some? && q < |line| && IsBlank(line[q]) {
      MergedLexemes(line, multi, s, q);
      BehindMore(line, multi, s, t, e);
      BehindDiffers(line, multi, shell, t, e + 1, None);
    } else {
      if cur.None? {
        JoinedLexemes(line, multi, s, None);
      } else {
        JoinedBehindEmpty(line, multi, s);
      }
      BehindStill(line, multi, s, t, e, cur);
      BehindDiffers(line, multi, shell, t, e, cur);
    }
  }

  lemma {:induction false} BehindMore(line: string, multi: bool, s: Scan, t: Scan, e: nat)
    requires e >= 1 && s.cur == "" && s.quote.None? && t.p <= |line| && t == s.(p := t.p)
    requires var l, m := Lex(line, multi, s.p, None), Lex(line, multi, t.p, None);
             Fields(l.lexemes, Some("")) == [""] + Fields(m.lexemes, None) && l.rest == m.rest
    ensures Behind(line, multi, t, e + 1, None)
    ensures MeantWith(line, multi, s, s.words + Empties(e), Some("")) == MeantWith(line, multi, t, t.words + Empties(e + 1), None)
  {
    hide Lex, Fields, Empties;
    OneMoreEmpty(e);
    var f := Fields(Lex(line, multi, t.p, None).lexemes, None);
    assert s.words + Empties(e) + ([""] + f) == s.words + (Empties(e) + [""]) + f;
  }

  lemma {:induction false} BehindStill(line: string, multi: bool, s: Scan, t: Scan, e: nat, cur: Option<string>)
    requires Behind(line, multi, s, e, cur) && s.quote.None? && t == s.(p := t.p) && t.p <= |line| && AtWord(line, t)
    requires t.p < |line| ==> !IsBlank(line[t.p])
    requires var l, m := Lex(line, multi, s.p, None), Lex(line, multi, t.p, None);
             Fields(l.lexemes, cur) == Fields(m.lexemes, cur) && l.rest == m.rest
    ensures Behind(line, multi, t, e, cur)
    ensures MeantWith(line, multi, s, s.words + Empties(e), cur) == MeantWith(line, multi, t, t.words + Empties(e), cur)
  {
    hide Lex, Fields, Empties, IsBlank;
  }

  lemma {:induction false} BehindBlank(line: string, multi: bool, shell: string, s: Scan, e: nat, cur: Option<string>)
    requires '\0' !in line && AtWord(line, s) && Behind(line, multi, s, e, cur) && Run(line, multi, shell, s).Words?
    requires s.p < |line| && s.quote.None? && IsBlank(line[s.p])
    ensures Run(line, multi, shell, s) != MeantWith(line, multi, s, s.words + Empties(e), cur)
    decreases |line| - s.p, 0
  {
    RunTurn(line, multi, shell, s);
    TurnIs(line, multi, shell, s);
    BehindAtBlank(line, multi, s, e, cur);
    match Turn(line, multi, shell, s)
    case UseShell =>
    case EndOfLine =>
      NewlineEnds(line, multi, shell, s);
      BlankIsNoNewline(line[s.p]);
    case Go(t) =>
      BlankTurnIs(line, multi, shell, s, t);
      WordEnd(line, multi, s.p, cur);
      BehindWord(line, multi, s, t, e, cur);
      hide *;
      BehindDiffers(line, multi, shell, t, e + |WordOf(cur)| - 1, None);
  }

  lemma {:induction false} BlankIsNoNewline(c: char)
    requires IsBlank(c)
    ensures c != '\n'
  {
  }

  lemma {:induction false} BehindAtBlank(line: string, multi: bool, s: Scan, e: nat, cur: Option<string>)
    requires AtWord(line, s) && Behind(line, multi, s, e, cur) && s.p < |line| && s.quote.None? && IsBlank(line[s.p])
    ensures s.lastEmpty && s.cur == "" && e + |WordOf(cur)| >= 2 && (cur.None? || cur == Some(""))
  {
    hide Lex, Fields;
  }

  lemma {:induction false} BehindWord(line: string, multi: bool, s: Scan, t: Scan, e: nat, cur: Option<string>)
    requires s.cur == "" && s.quote.None? && e + |WordOf(cur)| >= 2 && (cur.None? || cur == Some(""))
    requires t.p <= |line| && t.words == s.words + [s.cur] && t.cur == "" && t.quote.None? && !t.lastEmpty
    requires t.p < |line| ==> !IsBlank(line[t.p])
    requires var l, m := Lex(line, multi, s.p, None), Lex(line, multi, t.p, None);
             Fields(l.lexemes, cur) == WordOf(cur) + Fields(m.lexemes, None) && l.rest == m.rest
    ensures var e' := e + |WordOf(cur)| - 1;
            Behind(line, multi, t, e', None) && AtWord(line, t) &&
            MeantWith(line, multi, s, s.words + Empties(e), cur) == MeantWith(line, multi, t, t.words + Empties(e'), None)
  {
    hide Lex, Fields, IsBlank, Empties;
    var e': nat := e + |WordOf(cur)| - 1;
    var f := Fields(Lex(line, multi, t.p, None).lexemes, None);
    OneMoreEmpty(e');
    if cur.Some? {
      OneMoreEmpty(e);
    }
    assert Empties(e) + WordOf(cur) == [""] + Empties(e');
    assert s.words + Empties(e) + (WordOf(cur) + f) == s.words + ([""] + Empties(e')) + f == t.words + Empties(e') + f;
  }

  lemma {:induction false} BehindNewline(line: string, multi: bool, shell: string, s: Scan, e: nat, cur: Option<string>)
    requires Behind(line, multi, s, e, cur) && Run(line, multi, shell, s).Words?
    requires s.p < |line| && s.quote.None? && line[s.p] == '\n'
    ensures Run(line, multi, shell, s) != MeantWith(line, multi, s, s.words + Empties(e), cur)
  {
    RunTurn(line, multi, shell, s);
    NewlineLexed(line, multi, s.p);
    OrdinaryChars();
    RunKeeps(line, multi, shell, s);
    FieldsEnd(cur);
    hide Run, Lex, Fields, ShChar;
  }

  /** If no other word follows, no harm is done. */
  lemma {:induction false} LastEmpty(line: string, multi: bool, shell: string, s: Scan)
    requires '\0' !in line && s.p <= |line| && s.cur == "" && s.lastEmpty && Run(line, multi, shell, s).Words?
    requires s.quote.None? && s.p < |line| ==> !IsBlank(line[s.p])
    requires Fields(Lex(line, multi, s.p, s.quote).lexemes, None) == []
    ensures var rest := Lex(line, multi, s.p, s.quote).rest;
            Run(line, multi, shell, s) == Words(s.words + [""], rest) <==> multi || rest.None?
    decreases |line| - s.p
  {
    hide Run, Lex, Fields, ShChar, HasEscaped, Apart, Added;
    if s.p == |line| {
      RunEnd(line, multi, shell, s);
      LexEnd(line, multi, s);
    } else if Ordinary(line, shell, s) {
      RunTurn(line, multi, shell, s);
      match Turn(line, multi, shell, s)
      case UseShell =>
      case EndOfLine =>
        NewlineEnds(line, multi, shell, s);
      case Go(t) =>
        TurnIs(line, multi, shell, s);
        hide Turn;
        OrdinaryTurn(line, multi, shell, s, t);
        OrdinaryLexemes(line, multi, shell, s, t, None);
        if Added(line, s) != "" || Closes(line, s) {
          FieldsBegin(Lex(line, multi, t.p, t.quote).lexemes, "" + Added(line, s));
          assert false;
        } else {
          assert s.cur + "" == s.cur;
          LastEmpty(line, multi, shell, t);
        }
    } else if JoinsAt(line, s) {
      JoinedTurn(line, multi, shell, s);
      RunTurn(line, multi, shell, s);
      hide Turn;
      JoinedLexemes(line, multi, s, None);
      LastEmpty(line, multi, shell, s.(p := JoinedAt(line, s)));
    } else if line[s.p] == '\n' {
      LastNewline(line, multi, shell, s);
    } else {
      StrayTurn(line, multi, shell, s);
      var after := Lex(line, multi, s.p + 2, None);
      FieldsStep(Escaped(line[s.p + 1]), after.lexemes, None);
      assert "" + [line[s.p + 1]] == [line[s.p + 1]];
      FieldsBegin(after.lexemes, [line[s.p + 1]]);
      assert false;
    }
  }

  lemma {:induction false} LastNewline(line: string, multi: bool, shell: string, s: Scan)
    requires s.cur == "" && s.lastEmpty && Run(line, multi, shell, s).Words?
    requires s.p < |line| && s.quote.None? && line[s.p] == '\n'
    ensures Lex(line, multi, s.p, None).rest == Some(s.p)
    ensures Run(line, multi, shell, s) == Words(s.words + [""], Some(s.p)) <==> multi
  {
    RunTurn(line, multi, shell, s);
    NewlineLexed(line, multi, s.p);
    OrdinaryChars();
    RunKeeps(line, multi, shell, s);
    hide Run, Lex, ShChar;
  }

  lemma {:induction false} NothingIrregular(ms: seq<Lexeme>)
    requires Fields(ms, None) == []
    ensures !HasEscaped(ms) && Apart(ms, None)
    decreases |ms|
  {
    if ms != [] {
      NoMoreWords(ms);
      NothingIrregular(ms[1..]);
      FieldsStep(ms[0], ms[1..], None);
      assert [ms[0]] + ms[1..] == ms;
    }
  }

  // ----- the whole scan

  /** The scan finds the words and the end of the command that the rules of the shell give exactly
      in regular lines. */
  lemma {:induction false} ScanExact(line: string, multi: bool, shell: string, s: Scan)
    requires '\0' !in line && AtWord(line, s) && Run(line, multi, shell, s).Words?
    ensures Run(line, multi, shell, s) == Meant(line, multi, s) <==> Regular(line, multi, shell, s)
    decreases |line| - s.p
  {
    hide Run, Lex, Fields, ShChar, HasEscaped, Apart, Added;
    if s.p == |line| {
      RunEnd(line, multi, shell, s);
      LexEnd(line, multi, s);
      FieldsEnd(Pending(s));
    } else if Ordinary(line, shell, s) {
      RunTurn(line, multi, shell, s);
      match Turn(line, multi, shell, s)
      case UseShell =>
      case EndOfLine =>
        NewlineEnds(line, multi, shell, s);
      case Go(t) =>
        TurnIs(line, multi, shell, s);
        hide Turn;
        OrdinaryTurn(line, multi, shell, s, t);
        OrdinaryLexemes(line, multi, shell, s, t, Pending(s));
        ScanExact(line, multi, shell, t);
    } else if JoinsAt(line, s) {
      JoinedExact(line, multi, shell, s);
    } else if IsBlank(line[s.p]) {
      BlankExact(line, multi, shell, s);
    } else if line[s.p] == '\n' {
      NewlineExact(line, multi, shell, s);
    } else {
      StrayTurn(line, multi, shell, s);
      StrayDiffers(line, multi, shell, s);
    }
  }

  lemma {:induction false} BlankExact(line: string, multi: bool, shell: string, s: Scan)
    requires '\0' !in line && AtWord(line, s) && Run(line, multi, shell, s).Words?
    requires s.p < |line| && s.quote.None? && IsBlank(line[s.p])
    ensures Run(line, multi, shell, s) == Meant(line, multi, s) <==> Regular(line, multi, shell, s)
    decreases |line| - s.p, 0
  {
    RunTurn(line, multi, shell, s);
    hide Run, Lex, Fields, ShChar, HasEscaped, Apart;
    match Turn(line, multi, shell, s)
    case UseShell =>
    case EndOfLine =>
      NewlineEnds(line, multi, shell, s);
    case Go(t) =>
      TurnIs(line, multi, shell, s);
      BlankTurnIs(line, multi, shell, s, t);
      hide Turn;
      WordEnd(line, multi, s.p, Pending(s));
      var f := Fields(Lex(line, multi, t.p, None).lexemes, None);
      assert s.words + ([s.cur] + f) == t.words + f;
      ScanExact(line, multi, shell, t);
  }

  lemma {:induction false} NewlineExact(line: string, multi: bool, shell: string, s: Scan)
    requires Run(line, multi, shell, s).Words? && s.p < |line| && s.quote.None? && line[s.p] == '\n'
    ensures Run(line, multi, shell, s) == Meant(line, multi, s) <==> Regular(line, multi, shell, s)
  {
    RunTurn(line, multi, shell, s);
    NewlineLexed(line, multi, s.p);
    OrdinaryChars();
    RunKeeps(line, multi, shell, s);
    FieldsEnd(Pending(s));
    hide Run, Lex, Fields, ShChar, HasEscaped, Apart;
  }

  lemma {:induction false} JoinedExact(line: string, multi: bool, shell: string, s: Scan)
    requires '\0' !in line && Run(line, multi, shell, s).Words? && JoinsAt(line, s)
    ensures Run(line, multi, shell, s) == Meant(line, multi, s) <==> Regular(line, multi, shell, s)
    decreases |line| - s.p, 1
  {
    hide Run, Lex, Fields, Turn, HasEscaped, Apart, BlankEnd;
    JoinedTurn(line, multi, shell, s);
    var q := AfterTab(line, s.p + 2);
    if Pending(s) == Some("") && q < |line| && IsBlank(line[q]) {
      MergedExact(line, multi, shell, s, q);
    } else {
      JoinedRegular(line, multi, shell, s);
    }
  }

  /** A backslash-newline that does no harm. */
  lemma {:induction false} JoinedRegular(line: string, multi: bool, shell: string, s: Scan)
    requires '\0' !in line && Run(line, multi, shell, s).Words? && JoinsAt(line, s)
    requires var q := AfterTab(line, s.p + 2); Pending(s) == Some("") && q < |line| ==> !IsBlank(line[q])
    ensures Run(line, multi, shell, s) == Meant(line, multi, s) <==> Regular(line, multi, shell, s)
    decreases |line| - s.p, 0
  {
    JoinedTurn(line, multi, shell, s);
    RunTurn(line, multi, shell, s);
    var t := s.(p := JoinedAt(line, s));
    JoinedAtWord(line, s);
    if Pending(s) == Some("") {
      JoinedBehindEmpty(line, multi, s);
    } else {
      JoinedLexemes(line, multi, s, Pending(s));
    }
    hide *;
    SameTask(line, multi, shell, s, t);
    ScanExact(line, multi, shell, t);
  }

  lemma {:induction false} JoinedBehindEmpty(line: string, multi: bool, s: Scan)
    requires JoinsAt(line, s) && s.cur == ""
    requires var q := AfterTab(line, s.p + 2); q < |line| ==> !IsBlank(line[q])
    ensures s.p + 2 <= AfterTab(line, s.p + 2) <= |line|
    ensures var l, m := Lex(line, multi, s.p, None), Lex(line, multi, JoinedAt(line, s), None);
            Fields(l.lexemes, Some("")) == Fields(m.lexemes, Some("")) && l.rest == m.rest &&
            (Apart(l.lexemes, Some("")) <==> Apart(m.lexemes, Some(""))) && (HasEscaped(l.lexemes) <==> HasEscaped(m.lexemes))
  {
    hide *;
    QuoteOf(line, s);
    JoinedTurn(line, multi, "", s);
    var q := AfterTab(line, s.p + 2);
    BlankEndAt(line, q);
    FirstIsNoSeparator(line, multi, q);
    AdvanceNothing(Some(""));
    OneLexeme(Joined, Lex(line, multi, q, None), Some(""), "", false);
  }

  lemma {:induction false} QuoteOf(line: string, s: Scan)
    requires JoinsAt(line, s)
    ensures s.quote == None && s.p + 1 < |line|
  {
  }

  lemma {:induction false} JoinedAtWord(line: string, s: Scan)
    requires JoinsAt(line, s)
    ensures s.p < JoinedAt(line, s) <= |line| && AtWord(line, s.(p := JoinedAt(line, s)))
    ensures s.cur == "" && JoinedAt(line, s) < |line| ==> !IsBlank(line[JoinedAt(line, s)])
  {
  }

  /** States with the same lexemes to come, for the same word in progress. */
  lemma {:induction false} SameTask(line: string, multi: bool, shell: string, s: Scan, t: Scan)
    requires s.words == t.words && Pending(s) == Pending(t)
    requires var l, m, cur := Lex(line, multi, s.p, s.quote), Lex(line, multi, t.p, t.quote), Pending(s);
             Fields(l.lexemes, cur) == Fields(m.lexemes, cur) && l.rest == m.rest &&
             (Apart(l.lexemes, cur) <==> Apart(m.lexemes, cur)) && (HasEscaped(l.lexemes) <==> HasEscaped(m.lexemes))
    ensures Meant(line, multi, s) == Meant(line, multi, t)
    ensures Regular(line, multi, shell, s) <==> Regular(line, multi, shell, t)
  {
    hide Lex, Fields, Apart, HasEscaped, Pending;
  }

  lemma {:induction false} FirstIsNoSeparator(line: string, multi: bool, p: nat)
    requires p < |line| ==> !IsBlank(line[p])
    ensures var ms := Lex(line, multi, p, None).lexemes; ms != [] ==> !ms[0].Separator?
  {
    if p < |line| {
      LexStep(line, multi, p, None);
      NoSeparatorInQuotes(line, multi, p + 1, line[p]);
      hide Lex;
    }
  }

  /** An empty word in quotes, a backslash-newline and blanks. */
  lemma {:induction false} MergedExact(line: string, multi: bool, shell: string, s: Scan, q: nat)
    requires '\0' !in line && Run(line, multi, shell, s).Words? && JoinsAt(line, s) && Pending(s) == Some("")
    requires q == AfterTab(line, s.p + 2) < |line| && IsBlank(line[q])
    ensures Run(line, multi, shell, s) == Meant(line, multi, s) <==> Regular(line, multi, shell, s)
    decreases |line| - s.p, 0
  {
    JoinedTurn(line, multi, shell, s);
    RunTurn(line, multi, shell, s);
    PendingEmpty(s);
    MergedLexemes(line, multi, s, q);
    JoinedAtWord(line, s);
    QuoteOf(line, s);
    var t := s.(p := BlankEnd(line, q));
    var m := Lex(line, multi, t.p, None);
    hide *;
    if Fields(m.lexemes, None) != [] {
      MergedBehind(line, multi, shell, s, t);
      BehindDiffers(line, multi, shell, t, 1, None);
    } else {
      NothingIrregular(m.lexemes);
      LastEmpty(line, multi, shell, t);
      MergedLast(line, multi, shell, s, t);
    }
  }

  lemma {:induction false} PendingEmpty(s: Scan)
    requires Pending(s) == Some("")
    ensures s.cur == "" && s.lastEmpty
  {
  }

  /** Another word follows: by the rules, the empty word was one. */
  lemma {:induction false} MergedBehind(line: string, multi: bool, shell: string, s: Scan, t: Scan)
    requires s.quote.None? && s.cur == "" && s.lastEmpty && t == s.(p := t.p) && t.p <= |line| && (t.p < |line| ==> !IsBlank(line[t.p]))
    requires var l, m := Lex(line, multi, s.p, None), Lex(line, multi, t.p, None);
             Fields(l.lexemes, Some("")) == [""] + Fields(m.lexemes, None) && l.rest == m.rest && Fields(m.lexemes, None) != [] &&
             !Apart(l.lexemes, Some(""))
    ensures Behind(line, multi, t, 1, None) && AtWord(line, t) && !Regular(line, multi, shell, s)
    ensures Meant(line, multi, s) == MeantWith(line, multi, t, t.words + Empties(1), None)
  {
    hide Lex, Fields, Apart, HasEscaped, IsBlank;
    var f := Fields(Lex(line, multi, t.p, None).lexemes, None);
    assert Empties(1) == [""];
    assert s.words + ([""] + f) == s.words + Empties(1) + f;
  }

  /** No other word follows. */
  lemma {:induction false} MergedLast(line: string, multi: bool, shell: string, s: Scan, t: Scan)
    requires s.quote.None? && s.cur == "" && s.lastEmpty && t == s.(p := t.p)
    requires var l, m := Lex(line, multi, s.p, None), Lex(line, multi, t.p, None);
             Fields(l.lexemes, Some("")) == [""] + Fields(m.lexemes, None) && l.rest == m.rest && Fields(m.lexemes, None) == [] &&
             !HasEscaped(l.lexemes) && Apart(l.lexemes, Some(""))
    ensures Meant(line, multi, s) == Words(t.words + [""], Lex(line, multi, t.p, None).rest)
    ensures Regular(line, multi, shell, s) <==> multi || Lex(line, multi, t.p, None).rest.None?
  {
    hide Lex, Fields, Apart, HasEscaped;
    assert [""] + Fields(Lex(line, multi, t.p, None).lexemes, None) == [""];
  }

  lemma {:induction false} MergedLexemes(line: string, multi: bool, s: Scan, q: nat)
    requires JoinsAt(line, s) && q == AfterTab(line, s.p + 2) < |line| && IsBlank(line[q])
    ensures var l, m := Lex(line, multi, s.p, None), Lex(line, multi, BlankEnd(line, q), None);
            var f := Fields(m.lexemes, None);
            Fields(l.lexemes, Some("")) == [""] + f && l.rest == m.rest && (HasEscaped(l.lexemes) <==> HasEscaped(m.lexemes)) &&
            (Apart(l.lexemes, Some("")) <==> f == [] && Apart(m.lexemes, None))
  {
    JoinedTurn(line, multi, "", s);
    hide Lex, Fields, HasEscaped, Apart, Turn, BlankEnd;
    var ms := Lex(line, multi, q, None).lexemes;
    FieldsStep(Joined, ms, Some(""));
    WordEnd(line, multi, q, Some(""));
    WordEnd(line, multi, q, None);
    SeparatorStep(line, multi, q, None);
    SecondLexeme(ms);
  }

  lemma {:induction false} SecondLexeme(ms: seq<Lexeme>)
    ensures ([Joined] + ms)[1..] == ms
    ensures ms != [] ==> ([Joined] + ms)[1] == ms[0]
  {
  }

  /** A line without the shell: where the scan finds words, they are the words of the command by
      the rules of the shell, up to the same newline, if and only if the line is regular. */
  lemma {:induction false} SplitExact(line: string, multi: bool, shell: string)
    requires '\0' !in line && line != "" && !IsBlank(line[0]) && Run(line, multi, shell, START).Words?
    ensures Run(line, multi, shell, START) == Words(WordsOf(line, multi), Lex(line, multi, 0, None).rest) <==>
            Regular(line, multi, shell, START)
  {
    ScanExact(line, multi, shell, START);
    hide Run, Lex, Fields;
    assert [] + WordsOf(line, multi) == WordsOf(line, multi);
  }
}
