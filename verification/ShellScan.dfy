/** The scan that splits a command line into words without a shell, as a state machine. */
module ShellScan {
  import opened Wrappers
  import opened Tokens
  import opened ShellSyntax

  const SH_CHARS := {'#', ';', '"', '*', '?', '[', ']', '&', '|', '<', '>', '(', ')', '{', '}', '$', '`', '^', '~', '!'}

  const SH_CMDS := [".", ":", "break", "case", "cd", "continue", "eval", "exec", "exit", "export", "for", "if", "login",
    "logout", "read", "readonly", "set", "shift", "switch", "test", "times", "trap", "umask", "wait", "while"]

  /** A character the shell has to see. */
  predicate ShChar(c: char) {
    c in SH_CHARS
  }

  lemma {:induction false} OrdinaryChars()
    ensures !ShChar('=') && !ShChar('\\') && !ShChar('\n') && !ShChar(' ') && !ShChar('-') && !ShChar('c')
  {
  }

  predicate IsSpace(c: char) {
    IsBlank(c) || c == '\n' || c == '\r' || c as int == 11 || c as int == 12
  }

  /** The scan at `p`: the words so far, the one in progress, and the flags of the loop.  The
      quote is None outside of quotes. */
  datatype Scan = Scan(p: nat, words: seq<string>, cur: string, quote: Option<char>, hasEquals: bool, seenNonequals: bool, lastEmpty: bool)

  datatype Next = Go(to: Scan) | EndOfLine | UseShell

  /** One turn of the loop inside quotes. */
  function Quoted(line: string, multi: bool, s: Scan): Next
    requires s.p < |line| && s.quote.Some?
  {
    var c := line[s.p];
    if c == s.quote.value then Go(s.(p := s.p + 1, quote := None, lastEmpty := s.lastEmpty || s.cur == ""))
    else if c == '\\' && At(line, s.p + 1) == '\n' then
      Go(s.(p := AfterTab(line, s.p + 2), cur := s.cur + if s.quote.value == '"' then "" else "\\\n"))
    else if c == '\n' && multi then EndOfLine
    else if s.quote.value == '"' && c in "\\$`" then UseShell
    else Go(s.(p := s.p + 1, cur := s.cur + [c]))
  }

  /** A backslash outside of quotes.  It quotes the next character only in a line that begins with
      the name of the shell; in other lines it is an ordinary character. */
  function Backslash(line: string, shell: string, s: Scan): Scan
    requires s.p < |line|
  {
    if At(line, s.p + 1) == '\n' then
      var q := AfterTab(line, s.p + 2);
      s.(p := if s.cur == "" then BlankEnd(line, q) else q)
    else if shell <= line && At(line, s.p + 1) != '\0' then
      s.(p := s.p + 2, cur := s.cur + [At(line, s.p + 1)])
    else s.(p := s.p + 1, cur := s.cur + ['\\'])
  }

  /** The end of a word. */
  function Blank(line: string, s: Scan): Next
    requires s.p < |line|
  {
    var words, seen := s.words + [s.cur], s.seenNonequals || !s.hasEquals;
    if s.hasEquals && !seen then UseShell
    else if |words| == 1 && words[0] in SH_CMDS then UseShell
    else Go(Scan(BlankEnd(line, s.p), words, "", None, false, seen, false))
  }

  /** One turn of the loop outside of quotes. */
  function Unquoted(line: string, multi: bool, shell: string, s: Scan): Next
    requires s.p < |line| && s.quote.None?
  {
    var c := line[s.p];
    if ShChar(c) then UseShell
    else if c == '=' then
      if !s.seenNonequals then UseShell else Go(s.(p := s.p + 1, cur := s.cur + [c], hasEquals := true))
    else if c == '\\' then Go(Backslash(line, shell, s))
    else if c == '\'' || c == '"' then Go(s.(p := s.p + 1, quote := Some(c)))
    else if c == '\n' && multi then EndOfLine
    else if IsBlank(c) then Blank(line, s)
    else Go(s.(p := s.p + 1, cur := s.cur + [c]))
  }

  function Turn(line: string, multi: bool, shell: string, s: Scan): (n: Next)
    requires s.p < |line|
    ensures n.Go? ==> s.p < n.to.p
  {
    if s.quote.Some? then Quoted(line, multi, s) else Unquoted(line, multi, shell, s)
  }

  /** What the scan comes to: None if the shell has to be used, else the words (there may be none)
      and the place of the newline it stopped at. */
  datatype Outcome = Words(words: seq<string>, rest: Option<nat>) | NeedShell(rest: Option<nat>)

  /** Behind the loop: the last word, unless the shell is needed after all. */
  function Finish(s: Scan, rest: Option<nat>): Outcome {
    var words := s.words + if s.cur != "" || s.lastEmpty then [s.cur] else [];
    if s.quote.Some? || (|words| == 1 && words[0] in SH_CMDS) then NeedShell(rest) else Words(words, rest)
  }

  function Run(line: string, multi: bool, shell: string, s: Scan): Outcome
    decreases |line| - s.p
  {
    if s.p >= |line| then Finish(s, None)
    else
      match Turn(line, multi, shell, s)
      case Go(t) => Run(line, multi, shell, t)
      case EndOfLine => Finish(s, Some(s.p))
      case UseShell => NeedShell(None)
  }

  const START := Scan(0, [], "", None, false, false, false)

  lemma {:induction false} RunTurn(line: string, multi: bool, shell: string, s: Scan)
    requires s.p < |line|
    ensures Run(line, multi, shell, s) ==
            match Turn(line, multi, shell, s)
            case Go(t) => Run(line, multi, shell, t)
            case EndOfLine => Finish(s, Some(s.p))
            case UseShell => NeedShell(None)
  {
    hide Turn;
  }

  lemma {:induction false} TurnIs(line: string, multi: bool, shell: string, s: Scan)
    requires s.p < |line|
    ensures Turn(line, multi, shell, s) == if s.quote.Some? then Quoted(line, multi, s) else Unquoted(line, multi, shell, s)
    ensures Turn(line, multi, shell, s).Go? ==> s.p < Turn(line, multi, shell, s).to.p
  {
  }

  lemma {:induction false} RunEnd(line: string, multi: bool, shell: string, s: Scan)
    requires s.p >= |line|
    ensures Run(line, multi, shell, s) == Finish(s, None)
  {
  }
}
