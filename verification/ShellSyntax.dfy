/** What a shell takes for the words of a command, by the quoting rules of IEEE Std 1003.1, Shell
    Command Language, sections 2.2 and 2.3: the characters of the line are sorted into lexemes, and
    words are what stands between separators.  Expansions and operators are no part of it. */
module ShellSyntax {
  import opened Wrappers
  import opened Tokens

  /** The character at `i`, or a null behind the end. */
  function At(line: string, i: nat): char {
    if i < |line| then line[i] else '\0'
  }

  /** make takes the tab that begins the next line of a recipe away with a backslash-newline. */
  function AfterTab(line: string, i: nat): nat {
    if At(line, i) == '\t' then i + 1 else i
  }

  /** A character that stands for itself, one behind a backslash outside of quotes, the end of a
      quotation, a separator, and a backslash-newline that joins two lines. */
  datatype Lexeme = Literal(c: char) | Escaped(c: char) | Closed | Separator | Joined

  /** The lexemes of a command, and the newline at which it ends. */
  datatype Lexed = Lexed(lexemes: seq<Lexeme>, rest: Option<nat>)

  function Then(m: Lexeme, l: Lexed): Lexed {
    Lexed([m] + l.lexemes, l.rest)
  }

  /** The command from `p` on, inside the quotation `quote` or outside of any.  With `multi`, a
      newline inside quotes ends it as well: make has cut the recipe there. */
  function Lex(line: string, multi: bool, p: nat, quote: Option<char>): Lexed
    decreases |line| - p
  {
    if p >= |line| then Lexed([], None)
    else if quote.Some? then LexQuoted(line, multi, p, quote.value)
    else LexBare(line, multi, p)
  }

  function LexQuoted(line: string, multi: bool, p: nat, quote: char): Lexed
    requires p < |line|
    decreases |line| - p, 0
  {
    var c, q := line[p], Some(quote);
    if c == quote then Then(Closed, Lex(line, multi, p + 1, None))
    else if c == '\\' && At(line, p + 1) == '\n' then
      var l := Lex(line, multi, AfterTab(line, p + 2), q);
      if quote == '"' then Then(Joined, l) else Then(Literal('\\'), Then(Literal('\n'), l))
    else if c == '\n' && multi then Lexed([], Some(p))
    else if quote == '"' && c == '\\' && At(line, p + 1) in "$`\"\\" then
      Then(Literal(At(line, p + 1)), Lex(line, multi, p + 2, q))
    else Then(Literal(c), Lex(line, multi, p + 1, q))
  }

  function LexBare(line: string, multi: bool, p: nat): Lexed
    requires p < |line|
    decreases |line| - p, 0
  {
    var c := line[p];
    if c == '\\' then
      if At(line, p + 1) == '\n' then Then(Joined, Lex(line, multi, AfterTab(line, p + 2), None))
      else if p + 1 < |line| then Then(Escaped(line[p + 1]), Lex(line, multi, p + 2, None))
      else Then(Literal(c), Lex(line, multi, p + 1, None))
    else if c == '\'' || c == '"' then Lex(line, multi, p + 1, Some(c))
    else if c == '\n' then Lexed([], Some(p))
    else if IsBlank(c) then Then(Separator, Lex(line, multi, p + 1, None))
    else Then(Literal(c), Lex(line, multi, p + 1, None))
  }

  // ----- words

  /** The text of a word in progress; None between words. */
  function TextOf(cur: Option<string>): string {
    if cur.Some? then cur.value else ""
  }

  /** A lexeme more.  The end of a quotation makes a word even of no characters. */
  function After(cur: Option<string>, m: Lexeme): Option<string> {
    match m
    case Literal(c) => Some(TextOf(cur) + [c])
    case Escaped(c) => Some(TextOf(cur) + [c])
    case Closed => Some(TextOf(cur))
    case Separator => None
    case Joined => cur
  }

  function WordOf(cur: Option<string>): seq<string> {
    if cur.Some? then [cur.value] else []
  }

  function Fields(ms: seq<Lexeme>, cur: Option<string>): seq<string> {
    if ms == [] then WordOf(cur)
    else (if ms[0].Separator? then WordOf(cur) else []) + Fields(ms[1..], After(cur, ms[0]))
  }

  /** The words of a command line. */
  function WordsOf(line: string, multi: bool): seq<string> {
    Fields(Lex(line, multi, 0, None).lexemes, None)
  }


  predicate HasEscaped(ms: seq<Lexeme>) {
    exists k :: 0 <= k < |ms| && ms[k].Escaped?
  }

  /** No empty word in quotes is joined by a backslash-newline to the separator behind it, with
      more words to come. */
  predicate Apart(ms: seq<Lexeme>, cur: Option<string>) {
    ms == [] || (!Merges(ms, cur) && Apart(ms[1..], After(cur, ms[0])))
  }

  predicate Merges(ms: seq<Lexeme>, cur: Option<string>)
    requires ms != []
  {
    ms[0].Joined? && cur == Some("") && |ms| > 1 && ms[1].Separator? && Fields(ms[1..], None) != []
  }

  // ----- what only a shell can do

  /** Operators, by section 2.3. */
  predicate Operates(c: char) {
    c in "|&;<>()"
  }

  /** Parameter expansion and command substitution, by section 2.6. */
  predicate Expands(c: char) {
    c in "$`"
  }

  /** Pattern matching, by section 2.13. */
  predicate Matches(c: char) {
    c in "*?["
  }

  /** Comments, home directories, and the reserved words that are single characters: sections 2.3, 2.4
      and 2.6.1. */
  predicate Special(c: char) {
    Operates(c) || Expands(c) || Matches(c) || c in "#~{}!"
  }

  /** The special built-in utilities of section 2.14, but for "return" and "unset". */
  predicate SpecialBuiltin(w: string) {
    w in ["break", ":", "continue", ".", "eval", "exec", "exit", "export", "readonly", "set", "shift", "times", "trap"]
  }

  /** Utilities that act on the shell itself, and "test". */
  predicate OrdinaryBuiltin(w: string) {
    w in ["cd", "login", "logout", "read", "test", "umask", "wait"]
  }

  /** The words that begin a compound command, and the "switch" of the C shell. */
  predicate Reserved(w: string) {
    w in ["case", "for", "if", "switch", "while"]
  }

  predicate Builtin(w: string) {
    SpecialBuiltin(w) || OrdinaryBuiltin(w) || Reserved(w)
  }

  /** From `p` on the command has a special character outside of quotes, or an expansion in double
      quotes, before it ends.  Unless backslashes are heeded, nothing is said of what is behind one
      that escapes a character. */
  predicate NeedsShell(line: string, multi: bool, heed: bool, p: nat, quote: Option<char>)
    decreases |line| - p
  {
    p < |line| &&
    var c := line[p];
    if quote.Some? then
      if c == quote.value then NeedsShell(line, multi, heed, p + 1, None)
      else if c == '\\' && At(line, p + 1) == '\n' then NeedsShell(line, multi, heed, AfterTab(line, p + 2), quote)
      else if c == '\n' && multi then false
      else if quote.value == '"' && c == '\\' && At(line, p + 1) in "$`\"\\" then NeedsShell(line, multi, heed, p + 2, quote)
      else (quote.value == '"' && Expands(c)) || NeedsShell(line, multi, heed, p + 1, quote)
    else if c == '\\' then
      if At(line, p + 1) == '\n' then NeedsShell(line, multi, heed, AfterTab(line, p + 2), None)
      else if p + 1 < |line| then heed && NeedsShell(line, multi, heed, p + 2, None)
      else false
    else if c == '\'' || c == '"' then NeedsShell(line, multi, heed, p + 1, Some(c))
    else if c == '\n' then false
    else Special(c) || NeedsShell(line, multi, heed, p + 1, None)
  }

  // ----- one lexeme at a time

  lemma {:induction false} FieldsStep(m: Lexeme, ms: seq<Lexeme>, cur: Option<string>)
    ensures Fields([m] + ms, cur) == (if m.Separator? then WordOf(cur) else []) + Fields(ms, After(cur, m))
    ensures HasEscaped([m] + ms) <==> m.Escaped? || HasEscaped(ms)
    ensures Apart([m] + ms, cur) <==> !Merges([m] + ms, cur) && Apart(ms, After(cur, m))
  {
    assert ([m] + ms)[1..] == ms;
    assert forall k :: 0 <= k < |ms| ==> ms[k] == ([m] + ms)[k + 1];
  }

  lemma {:induction false} FieldsEnd(cur: Option<string>)
    ensures Fields([], cur) == WordOf(cur) && !HasEscaped([]) && Apart([], cur)
  {
  }

  /** A word in progress becomes the beginning of the first word. */
  lemma {:induction false} FieldsBegin(ms: seq<Lexeme>, y: string)
    ensures Fields(ms, Some(y)) != [] && y <= Fields(ms, Some(y))[0]
    decreases |ms|
  {
    if ms != [] && !ms[0].Separator? {
      FieldsBegin(ms[1..], After(Some(y), ms[0]).value);
    }
  }

  /** Without more words there are only separators and joined lines. */
  lemma {:induction false} NoMoreWords(ms: seq<Lexeme>)
    requires Fields(ms, None) == []
    ensures ms == [] || ((ms[0].Separator? || ms[0].Joined?) && Fields(ms[1..], None) == [])
  {
    if ms != [] && After(None, ms[0]).Some? {
      FieldsBegin(ms[1..], After(None, ms[0]).value);
    }
  }
}
