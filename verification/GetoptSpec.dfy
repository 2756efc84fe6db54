/** What getopt has to answer, told from the original argument vector alone: no permutation, no
    scanning state but a position.  See IEEE Std 1003.1, Base Definitions, section 12.2. */
module GetoptSpec {
  import opened Wrappers

  datatype Ordering = RequireOrder | Permute | ReturnInOrder

  /** A long option; `hasArg` is 0 for none, 1 for a required and 2 for an optional argument. */
  datatype LongOpt = LongOpt(name: string, hasArg: nat, val: int)

  datatype Config = Config(optstring: string, longopts: Option<seq<LongOpt>>)

  /** What one call returns: the option code, and the argument left in `optarg`. */
  datatype Answer = Answer(code: int, optarg: Option<string>)

  const QUESTION: int := '?' as int
  const COLON: int := ':' as int
  /** The code of a non-option that is returned in its place. */
  const NON_OPTION: int := 1

  predicate IsNonOption(arg: string) {
    |arg| < 2 || arg[0] != '-'
  }

  // ----- short options

  datatype ArgKind = NoSuchOption | NoArgument | RequiredArgument | OptionalArgument

  /** The entry of an option character: what follows its first occurrence. */
  function KindOf(optstring: string, c: char): ArgKind {
    if c == ':' || optstring == "" then NoSuchOption
    else if optstring[0] != c then KindOf(optstring[1..], c)
    else if |optstring| < 2 || optstring[1] != ':' then NoArgument
    else if |optstring| < 3 || optstring[2] != ':' then RequiredArgument
    else OptionalArgument
  }

  /** The option string asks for long options behind "-W".  None of make's does. */
  predicate LongByW(optstring: string) {
    optstring != "" &&
    if optstring[0] == 'W' then |optstring| > 1 && optstring[1] == ';' else LongByW(optstring[1..])
  }

  function Missing(optstring: string): int {
    if optstring != "" && optstring[0] == ':' then COLON else QUESTION
  }

  /** A scanning position: the element at `i`, of which `rest` is still to be looked at; an empty
      `rest` means that the element before `i` is finished. */
  datatype Position = Position(i: nat, rest: string)

  /** The next character of a cluster of short options. */
  function ShortStep(optstring: string, args: seq<string>, i: nat, rest: string): (r: (Answer, Position))
    requires rest != "" && i < |args|
    ensures r.1.i <= |args| && (r.1.rest != "" ==> r.1.i < |args|)
    ensures (r.1.i == i && r.1.rest == rest[1..] && rest[1..] != "") || (r.1.i > i && r.1.rest == "")
  {
    var c, more := rest[0], rest[1..];
    var after := if more == "" then Position(i + 1, "") else Position(i, more);
    match KindOf(optstring, c)
    case NoSuchOption => (Answer(QUESTION, None), after)
    case NoArgument => (Answer(c as int, None), after)
    case OptionalArgument => (Answer(c as int, if more != "" then Some(more) else None), Position(i + 1, ""))
    case RequiredArgument =>
      if more != "" then (Answer(c as int, Some(more)), Position(i + 1, ""))
      else if i + 1 == |args| then (Answer(Missing(optstring), None), Position(i + 1, ""))
      else (Answer(c as int, Some(args[i + 1])), Position(i + 2, ""))
  }

  // ----- long options

  datatype LongMatch = Found(opt: LongOpt) | Ambiguous | Unknown

  /** The first option of exactly this name. */
  function Exact(opts: seq<LongOpt>, name: string): Option<LongOpt> {
    if opts == [] then None else if opts[0].name == name then Some(opts[0]) else Exact(opts[1..], name)
  }

  /** The options whose names begin with `name`, in order. */
  function Abbreviated(opts: seq<LongOpt>, name: string): seq<LongOpt> {
    if opts == [] then []
    else (if name <= opts[0].name then [opts[0]] else []) + Abbreviated(opts[1..], name)
  }

  /** An exact match wins wherever it stands; otherwise a single option of which the name is an
      abbreviation. */
  function FindLong(opts: seq<LongOpt>, name: string): LongMatch {
    var found := Abbreviated(opts, name);
    match Exact(opts, name)
    case Some(o) => Found(o)
    case None => if |found| == 0 then Unknown else if |found| == 1 then Found(found[0]) else Ambiguous
  }

  /** Where the name of a long option ends: at an equals sign or at the end of the text. */
  function NameEnd(text: string): (n: nat)
    ensures n <= |text| && (n < |text| ==> text[n] == '=') && '=' !in text[..n]
  {
    if text == "" || text[0] == '=' then 0 else 1 + NameEnd(text[1..])
  }

  /** A long option; `text` is the element after its two dashes. */
  function LongStep(cfg: Config, opts: seq<LongOpt>, args: seq<string>, i: nat, text: string, optstring: string): (r: (Answer, nat))
    requires i < |args|
    ensures i < r.1 <= |args|
  {
    var n := NameEnd(text);
    match FindLong(opts, text[..n])
    case Ambiguous => (Answer(QUESTION, None), i + 1)
    case Unknown => (Answer(QUESTION, None), i + 1)
    case Found(o) =>
      if n < |text| then
        (if o.hasArg != 0 then Answer(o.val, Some(text[n + 1..])) else Answer(QUESTION, None), i + 1)
      else if o.hasArg == 1 then
        if i + 1 < |args| then (Answer(o.val, Some(args[i + 1])), i + 2)
        else (Answer(Missing(optstring), None), i + 1)
      else (Answer(o.val, None), i + 1)
  }

  // ----- one call, and all of them

  /** Where the scan stops next: in permuting order non-options are passed over. */
  function Boundary(ord: Ordering, args: seq<string>, i: nat): (j: nat)
    requires i <= |args|
    ensures i <= j <= |args|
    ensures forall k :: i <= k < j ==> IsNonOption(args[k])
    ensures ord.Permute? && j < |args| ==> !IsNonOption(args[j])
    ensures !ord.Permute? ==> j == i
    decreases |args| - i
  {
    if ord.Permute? && i < |args| && IsNonOption(args[i]) then Boundary(ord, args, i + 1) else i
  }

  datatype Call =
    | Finished(at: nat)                                  // no more options; `at` is where the scan stopped
    | Returned(from: nat, answer: Answer, next: Position) // an option, from the element at `from`

  /** A call that comes to the element at `j`, which is not "--". */
  function ElementCall(cfg: Config, optstring: string, ord: Ordering, args: seq<string>, j: nat): (c: Call)
    requires j < |args|
    ensures c.Finished? ==> c.at == j
    ensures c.Returned? ==> j == c.from <= c.next.i <= |args| && (c.next.rest != "" ==> c.next.i < |args|) &&
                            Closer(args, Position(j, ""), c.next)
  {
    if IsNonOption(args[j]) then
      if ord.RequireOrder? then Finished(j)
      else Returned(j, Answer(NON_OPTION, Some(args[j])), Position(j + 1, ""))
    else if cfg.longopts.Some? && args[j][1] == '-' then
      var (a, i') := LongStep(cfg, cfg.longopts.value, args, j, args[j][2..], optstring);
      Returned(j, a, Position(i', ""))
    else
      var (a, q) := ShortStep(optstring, args, j, args[j][1..]);
      Returned(j, a, q)
  }

  /** One call of getopt at a position, with the option string that call sees. */
  function CallAt(cfg: Config, optstring: string, ord: Ordering, args: seq<string>, p: Position): (c: Call)
    requires p.i <= |args| && (p.rest != "" ==> p.i < |args|)
    ensures c.Finished? ==> p.i <= c.at <= |args|
    ensures c.Returned? ==> p.i <= c.from <= c.next.i <= |args| && c.from < |args| &&
                            (c.next.rest != "" ==> c.next.i < |args|) && Closer(args, p, c.next)
  {
    if p.rest != "" then
      var (a, q) := ShortStep(optstring, args, p.i, p.rest);
      Returned(p.i, a, q)
    else
      var j := Boundary(ord, args, p.i);
      if j == |args| || args[j] == "--" then Finished(j) else ElementCall(cfg, optstring, ord, args, j)
  }

  /** Text left in the element at a position. */
  function Left(args: seq<string>, p: Position): nat {
    if p.rest != "" then |p.rest| else if p.i < |args| then |args[p.i]| else 0
  }

  predicate Closer(args: seq<string>, p: Position, q: Position) {
    q.i > p.i || (q.i == p.i && Left(args, q) < Left(args, p))
  }

  /** All answers from a position on.  Only the first call of all sees `optstring` without its
      leading ordering character; later ones see the string of the configuration. */
  function Answers(cfg: Config, optstring: string, ord: Ordering, args: seq<string>, p: Position): seq<Answer>
    requires p.i <= |args| && (p.rest != "" ==> p.i < |args|)
    decreases |args| - p.i, Left(args, p)
  {
    match CallAt(cfg, optstring, ord, args, p)
    case Finished(_) => []
    case Returned(_, a, q) => [a] + Answers(cfg, cfg.optstring, ord, args, q)
  }

  /** `n` times the same mark. */
  function Marks(n: nat, b: bool): (m: seq<bool>)
    ensures |m| == n && forall k :: 0 <= k < n ==> m[k] == b
  {
    seq(n, _ => b)
  }

  /** Which of the elements from `p.i` on are used up by the scan: options, their separate
      arguments, non-options that are returned, and a terminating "--"; the others are left for
      the caller. */
  function Used(cfg: Config, optstring: string, ord: Ordering, args: seq<string>, p: Position): (m: seq<bool>)
    requires p.i <= |args| && (p.rest != "" ==> p.i < |args|)
    ensures |m| == |args| - p.i
    decreases |args| - p.i, Left(args, p)
  {
    match CallAt(cfg, optstring, ord, args, p)
    case Finished(j) =>
      var stop := if j < |args| && args[j] == "--" then [true] else [];
      Marks(j - p.i, false) + stop + Marks(|args| - j - |stop|, false)
    case Returned(j, _, q) =>
      Marks(j - p.i, false) + Marks(q.i - j, true) + Used(cfg, cfg.optstring, ord, args, q)
  }

  /** The elements of `s` that carry mark `b`, in order. */
  function Select(s: seq<string>, m: seq<bool>, b: bool): seq<string>
    requires |s| == |m|
  {
    if s == [] then [] else (if m[0] == b then [s[0]] else []) + Select(s[1..], m[1..], b)
  }

  lemma {:induction false} SelectAppend(s: seq<string>, m: seq<bool>, t: seq<string>, n: seq<bool>, b: bool)
    requires |s| == |m| && |t| == |n|
    ensures Select(s + t, m + n, b) == Select(s, m, b) + Select(t, n, b)
  {
    if s == [] {
      assert s + t == t && m + n == n;
    } else {
      assert (s + t)[1..] == s[1..] + t && (m + n)[1..] == m[1..] + n;
      SelectAppend(s[1..], m[1..], t, n, b);
    }
  }

  lemma {:induction false} SelectAll(s: seq<string>, m: seq<bool>, b: bool)
    requires |s| == |m| && forall k :: 0 <= k < |m| ==> m[k] == b
    ensures Select(s, m, b) == s && Select(s, m, !b) == []
  {
    if s != [] {
      SelectAll(s[1..], m[1..], b);
    }
  }

  /** Selecting by the two marks splits a sequence without losing or making an element. */
  lemma {:induction false} SelectIsPermutation(s: seq<string>, m: seq<bool>)
    requires |s| == |m|
    ensures multiset(Select(s, m, true) + Select(s, m, false)) == multiset(s)
  {
    if s == [] {
    } else {
      assert s == [s[0]] + s[1..];
      SelectIsPermutation(s[1..], m[1..]);
    }
  }
}
