/** Command lines written by the utility conventions and read back: what an argument vector was
    written from is what getopt answers.  See IEEE Std 1003.1, Base Definitions, section 12.2. */
module GetoptRoundTrip {
  import opened Wrappers
  import opened GetoptSpec
  import opened Getopt

  // ----- option strings

  /** An option character and what it takes. */
  datatype Entry = Entry(c: char, kind: ArgKind)

  function EntryText(e: Entry): string {
    match e.kind
    case RequiredArgument => [e.c, ':']
    case OptionalArgument => [e.c, ':', ':']
    case _ => [e.c]
  }

  function OptionString(entries: seq<Entry>): string {
    if entries == [] then "" else EntryText(entries[0]) + OptionString(entries[1..])
  }

  /** Every character has one entry, and colons have none. */
  predicate OneEntryEach(entries: seq<Entry>) {
    (forall k :: 0 <= k < |entries| ==> entries[k].c != ':' && !entries[k].kind.NoSuchOption?) &&
    forall j, k :: 0 <= j < k < |entries| ==> entries[j].c != entries[k].c
  }

  lemma {:induction false} ColonFree(entries: seq<Entry>)
    requires OneEntryEach(entries)
    ensures OptionString(entries) != "" ==> OptionString(entries)[0] != ':'
  {
  }

  /** An option string reads back as the entries it was written from. */
  lemma {:induction false} KindIsEntry(entries: seq<Entry>, c: char)
    requires OneEntryEach(entries)
    ensures forall k :: 0 <= k < |entries| && entries[k].c == c ==> KindOf(OptionString(entries), c) == entries[k].kind
    ensures (forall k :: 0 <= k < |entries| ==> entries[k].c != c) ==> KindOf(OptionString(entries), c) == NoSuchOption
  {
    if entries != [] && c != ':' {
      var e, more := entries[0], OptionString(entries[1..]);
      ColonFree(entries[1..]);
      KindIsEntry(entries[1..], c);
      FirstEntry(e, more, c);
    }
  }

  lemma {:induction false} FirstEntry(e: Entry, more: string, c: char)
    requires e.c != ':' && !e.kind.NoSuchOption? && c != ':' && (more != "" ==> more[0] != ':')
    ensures KindOf(EntryText(e) + more, c) == if c == e.c then e.kind else KindOf(more, c)
  {
    var s := EntryText(e) + more;
    if c != e.c {
      assert s[1..] == EntryText(e)[1..] + more;
      PassedOver(s, c);
      if e.kind.RequiredArgument? {
        PassedOver(s[1..], c);
        assert s[1..][1..] == more;
      } else if e.kind.OptionalArgument? {
        PassedOver(s[1..], c);
        PassedOver(s[1..][1..], c);
        assert s[1..][1..][1..] == more;
      } else {
        assert s[1..] == more;
      }
    }
  }

  lemma {:induction false} PassedOver(s: string, c: char)
    requires s != "" && s[0] != c && c != ':'
    ensures KindOf(s, c) == KindOf(s[1..], c)
  {
  }

  /** So does one with a character in front that chooses the ordering or the code for missing arguments. */
  lemma {:induction false} KindBehind(entries: seq<Entry>, lead: char, c: char)
    requires OneEntryEach(entries) && c != lead
    ensures KindOf([lead] + OptionString(entries), c) == KindOf(OptionString(entries), c)
  {
    assert ([lead] + OptionString(entries))[1..] == OptionString(entries);
    if c != ':' {
      PassedOver([lead] + OptionString(entries), c);
    }
  }

  // ----- names of long options

  /** `name` stands for the option at `k`: the first of just this name, or else the only one of which it is an
      abbreviation. */
  ghost predicate StandsFor(opts: seq<LongOpt>, name: string, k: nat) {
    k < |opts| && name <= opts[k].name &&
    if name == opts[k].name then forall j :: 0 <= j < k ==> opts[j].name != name
    else forall j :: 0 <= j < |opts| && j != k ==> !(name <= opts[j].name)
  }

  lemma {:induction false} ExactAt(opts: seq<LongOpt>, name: string) returns (k: nat)
    ensures k <= |opts| && forall j :: 0 <= j < k ==> opts[j].name != name
    ensures if k < |opts| then opts[k].name == name && Exact(opts, name) == Some(opts[k]) else Exact(opts, name) == None
  {
    if opts == [] || opts[0].name == name {
      k := 0;
    } else {
      var i := ExactAt(opts[1..], name);
      k := i + 1;
      assert forall j :: 1 <= j < |opts| ==> opts[j] == opts[1..][j - 1];
    }
  }

  /** The abbreviated options, by their places. */
  lemma {:induction false} AbbreviatedAt(opts: seq<LongOpt>, name: string)
    ensures Abbreviated(opts, name) == [] <==> forall j :: 0 <= j < |opts| ==> !(name <= opts[j].name)
    ensures forall k :: 0 <= k < |opts| && OnlyAt(opts, name, k) ==> Abbreviated(opts, name) == [opts[k]]
    ensures |Abbreviated(opts, name)| == 1 ==> exists k :: 0 <= k < |opts| && OnlyAt(opts, name, k)
  {
    if opts != [] {
      AbbreviatedAt(opts[1..], name);
      assert forall j :: 1 <= j < |opts| ==> opts[j] == opts[1..][j - 1];
      forall k | 0 <= k < |opts| && OnlyAt(opts, name, k)
        ensures Abbreviated(opts, name) == [opts[k]]
      {
        if k > 0 {
          assert OnlyAt(opts[1..], name, k - 1);
        }
      }
      if |Abbreviated(opts, name)| == 1 {
        if name <= opts[0].name {
          assert OnlyAt(opts, name, 0);
        } else {
          var k :| 0 <= k < |opts[1..]| && OnlyAt(opts[1..], name, k);
          assert OnlyAt(opts, name, k + 1);
        }
      }
    }
  }

  predicate OnlyAt(opts: seq<LongOpt>, name: string, k: nat) {
    k < |opts| && name <= opts[k].name && forall j :: 0 <= j < |opts| && j != k ==> !(name <= opts[j].name)
  }

  /** Which option a name is found to be. */
  lemma {:induction false} FoundExactly(opts: seq<LongOpt>, name: string)
    ensures forall k: nat :: StandsFor(opts, name, k) ==> FindLong(opts, name) == Found(opts[k])
    ensures FindLong(opts, name).Found? ==> exists k: nat :: StandsFor(opts, name, k)
  {
    var e := ExactAt(opts, name);
    AbbreviatedAt(opts, name);
    forall k: nat | StandsFor(opts, name, k)
      ensures FindLong(opts, name) == Found(opts[k])
    {
      if name == opts[k].name {
        assert e == k;
      } else {
        assert OnlyAt(opts, name, k);
      }
    }
    if e < |opts| {
      assert StandsFor(opts, name, e);
    } else if |Abbreviated(opts, name)| == 1 {
      var k :| 0 <= k < |opts| && OnlyAt(opts, name, k);
      assert StandsFor(opts, name, k);
    }
  }

  // ----- command lines

  /** How the argument of an option is written. */
  datatype Arg = NoArg | Attached(text: string) | Separate(text: string)

  /** What command lines are written from: a cluster "-abc" with one last option that may have an argument, a long
      option, an operand, and "--" with whatever stands behind it. */
  datatype Item =
    | Short(flags: string, c: char, arg: Arg)
    | Long(name: string, arg: Arg)
    | Operand(text: string)
    | Stop(rest: seq<string>)

  function Elements(item: Item): seq<string> {
    match item
    case Short(flags, c, NoArg) => ["-" + flags + [c]]
    case Short(flags, c, Attached(text)) => ["-" + flags + [c] + text]
    case Short(flags, c, Separate(text)) => ["-" + flags + [c], text]
    case Long(name, NoArg) => ["--" + name]
    case Long(name, Attached(text)) => ["--" + name + "=" + text]
    case Long(name, Separate(text)) => ["--" + name, text]
    case Operand(text) => [text]
    case Stop(rest) => ["--"] + rest
  }

  function Written(items: seq<Item>): seq<string> {
    if items == [] then [] else Elements(items[0]) + Written(items[1..])
  }

  /** An option character.  The two that choose the ordering are none: the first call does not see
      them, and later ones do. */
  predicate IsLetter(c: char) {
    c != '-' && c != '+'
  }

  /** A character of a cluster that takes no argument, or that no option has. */
  predicate IsFlag(cfg: Config, c: char) {
    IsLetter(c) && (KindOf(cfg.optstring, c).NoArgument? || KindOf(cfg.optstring, c).NoSuchOption?)
  }

  ghost function Named(cfg: Config, name: string): Option<LongOpt> {
    if cfg.longopts.Some? && exists k: nat :: StandsFor(cfg.longopts.value, name, k) then
      var k: nat :| StandsFor(cfg.longopts.value, name, k);
      Some(cfg.longopts.value[k])
    else None
  }

  /** An option that lacks its argument stands last. */
  ghost predicate Starved(cfg: Config, item: Item) {
    match item
    case Short(_, c, NoArg) => KindOf(cfg.optstring, c).RequiredArgument?
    case Long(name, NoArg) => Named(cfg, name).Some? && Named(cfg, name).value.hasArg == 1
    case _ => false
  }

  /** No colon stands behind a character that chooses the ordering, where only the first call would take it for the
      first one. */
  predicate ColonInFront(cfg: Config) {
    |cfg.optstring| >= 2 && cfg.optstring[0] in "-+" ==> cfg.optstring[1] != ':'
  }

  /** An item as it can be written for these options: unknown characters and names, and arguments for long
      options that take none, are mistakes that are answered; nothing else is excluded but what reads otherwise. */
  ghost predicate Writable(cfg: Config, item: Item) {
    (Starved(cfg, item) ==> ColonInFront(cfg)) &&
    match item
    case Short(flags, c, arg) =>
      (forall k :: 0 <= k < |flags| ==> IsFlag(cfg, flags[k])) && IsLetter(c) &&
      (match arg
       case NoArg => true
       case Attached(text) => text != "" && (KindOf(cfg.optstring, c).RequiredArgument? || KindOf(cfg.optstring, c).OptionalArgument?)
       case Separate(_) => KindOf(cfg.optstring, c).RequiredArgument?)
    case Long(name, arg) =>
      cfg.longopts.Some? && '=' !in name &&
      (match arg
       case NoArg => name != ""
       case Attached(_) => true
       case Separate(_) => name != "" && Named(cfg, name).Some? && Named(cfg, name).value.hasArg == 1)
    case Operand(text) => |text| < 2 || text[0] != '-'
    case Stop(_) => true
  }

  ghost predicate AllWritable(cfg: Config, items: seq<Item>) {
    items == [] ||
    (Writable(cfg, items[0]) && AllWritable(cfg, items[1..]) && (Starved(cfg, items[0]) || items[0].Stop? ==> items[1..] == []))
  }

  // ----- what they are to be answered

  function FlagAnswer(cfg: Config, c: char): Answer {
    Answer(if KindOf(cfg.optstring, c).NoSuchOption? then '?' as int else c as int, None)
  }

  function FlagAnswers(cfg: Config, flags: string): seq<Answer> {
    if flags == "" then [] else [FlagAnswer(cfg, flags[0])] + FlagAnswers(cfg, flags[1..])
  }

  /** The code for a missing argument: a colon if the option string begins with one. */
  function MissingCode(cfg: Config): int {
    if cfg.optstring != "" && cfg.optstring[0] == ':' then ':' as int else '?' as int
  }

  function ArgText(arg: Arg): Option<string> {
    match arg case NoArg => None case Attached(text) => Some(text) case Separate(text) => Some(text)
  }

  ghost function LastAnswer(cfg: Config, item: Item): Answer
    requires item.Short? || item.Long?
  {
    if Starved(cfg, item) then Answer(MissingCode(cfg), None)
    else
      match item
      case Short(_, c, arg) => if KindOf(cfg.optstring, c).NoSuchOption? then Answer('?' as int, None) else Answer(c as int, ArgText(arg))
      case Long(name, arg) =>
        if Named(cfg, name).None? || (Named(cfg, name).value.hasArg == 0 && arg.Attached?) then Answer('?' as int, None)
        else Answer(Named(cfg, name).value.val, ArgText(arg))
  }

  ghost function ItemAnswers(cfg: Config, item: Item): seq<Answer>
    requires item.Short? || item.Long?
  {
    (if item.Short? then FlagAnswers(cfg, item.flags) else []) + [LastAnswer(cfg, item)]
  }

  /** Operands are passed over, returned with code 1, or end the scan. */
  ghost function Expected(cfg: Config, ord: Ordering, items: seq<Item>): seq<Answer> {
    if items == [] then []
    else
      match items[0]
      case Operand(text) =>
        (match ord
         case Permute => Expected(cfg, ord, items[1..])
         case ReturnInOrder => [Answer(1, Some(text))] + Expected(cfg, ord, items[1..])
         case RequireOrder => [])
      case Stop(_) => []
      case _ => ItemAnswers(cfg, items[0]) + Expected(cfg, ord, items[1..])
  }

  /** What is left to the caller. */
  function Remaining(ord: Ordering, items: seq<Item>): seq<string> {
    if items == [] then []
    else
      match items[0]
      case Operand(text) =>
        (match ord
         case Permute => [text] + Remaining(ord, items[1..])
         case ReturnInOrder => Remaining(ord, items[1..])
         case RequireOrder => Written(items))
      case Stop(rest) => rest
      case _ => Remaining(ord, items[1..])
  }

  /** The elements that the scan uses up. */
  function Consumed(ord: Ordering, items: seq<Item>): seq<string> {
    if items == [] then []
    else
      match items[0]
      case Operand(text) =>
        (match ord
         case Permute => Consumed(ord, items[1..])
         case ReturnInOrder => [text] + Consumed(ord, items[1..])
         case RequireOrder => [])
      case Stop(_) => ["--"]
      case _ => Elements(items[0]) + Consumed(ord, items[1..])
  }

  /** A first character that chooses the ordering is taken off for the first call; without one the
      environment decides. */
  lemma {:induction false} FirstCallSees(cfg: Config, posixlyCorrect: bool)
    ensures cfg.optstring != "" && cfg.optstring[0] in "-+" ==>
      cfg.optstring == [cfg.optstring[0]] + FirstOptstring(cfg) &&
      OrderingOf(cfg, posixlyCorrect) == if cfg.optstring[0] == '-' then ReturnInOrder else RequireOrder
    ensures cfg.optstring == "" || cfg.optstring[0] !in "-+" ==>
      FirstOptstring(cfg) == cfg.optstring && OrderingOf(cfg, posixlyCorrect) == if posixlyCorrect then RequireOrder else Permute
  {
    if cfg.optstring != "" {
      assert cfg.optstring == [cfg.optstring[0]] + cfg.optstring[1..];
    }
  }

  // ----- one call

  /** The option string of this call is the whole one, or the one that the first call sees. */
  predicate Sees(cfg: Config, os: string) {
    os == cfg.optstring || os == FirstOptstring(cfg)
  }

  lemma {:induction false} SeenKind(cfg: Config, os: string, c: char)
    requires Sees(cfg, os) && IsLetter(c)
    ensures KindOf(os, c) == KindOf(cfg.optstring, c)
  {
  }

  lemma {:induction false} SeenMissing(cfg: Config, os: string)
    requires Sees(cfg, os) && ColonInFront(cfg)
    ensures Missing(os) == MissingCode(cfg)
  {
  }

  /** So many calls, with these answers, use up what is between two positions. */
  ghost predicate Steps(cfg: Config, os: string, ord: Ordering, args: seq<string>, p: Position, found: seq<Answer>, q: Position) {
    p.i <= q.i <= |args| && (p.rest != "" ==> p.i < |args|) && (q.rest != "" ==> q.i < |args|) &&
    Answers(cfg, os, ord, args, p) == found + Answers(cfg, cfg.optstring, ord, args, q) &&
    Used(cfg, os, ord, args, p) == Marks(q.i - p.i, true) + Used(cfg, cfg.optstring, ord, args, q)
  }

  lemma {:induction false} OneCall(cfg: Config, os: string, ord: Ordering, args: seq<string>, p: Position, a: Answer, q: Position)
    requires p.i < |args| && CallAt(cfg, os, ord, args, p) == Returned(p.i, a, q)
    ensures Steps(cfg, os, ord, args, p, [a], q)
  {
    hide *;
    AnswersUnfold(cfg, os, ord, args, p);
    UsedUnfold(cfg, os, ord, args, p);
    NothingMarked(q.i - p.i, Used(cfg, cfg.optstring, ord, args, q));
    StepsIs(cfg, os, ord, args, p, [a], q);
  }

  lemma {:induction false} NothingMarked(n: nat, m: seq<bool>)
    ensures Marks(0, false) + Marks(n, true) + m == Marks(n, true) + m
  {
  }

  lemma {:induction false} StepsIs(cfg: Config, os: string, ord: Ordering, args: seq<string>, p: Position, found: seq<Answer>, q: Position)
    requires p.i <= q.i <= |args| && (p.rest != "" ==> p.i < |args|) && (q.rest != "" ==> q.i < |args|)
    ensures Steps(cfg, os, ord, args, p, found, q) <==>
      Answers(cfg, os, ord, args, p) == found + Answers(cfg, cfg.optstring, ord, args, q) &&
      Used(cfg, os, ord, args, p) == Marks(q.i - p.i, true) + Used(cfg, cfg.optstring, ord, args, q)
  {
    hide Answers, Used, Marks;
  }

  lemma {:induction false} StepsMore(cfg: Config, os: string, ord: Ordering, args: seq<string>, p: Position, a: seq<Answer>, q: Position, b: seq<Answer>, r: Position)
    requires Steps(cfg, os, ord, args, p, a, q) && Steps(cfg, cfg.optstring, ord, args, q, b, r)
    ensures Steps(cfg, os, ord, args, p, a + b, r)
  {
    hide Answers, Used;
    AssocAnswers(a, b, Answers(cfg, cfg.optstring, ord, args, r));
    assert Marks(q.i - p.i, true) + (Marks(r.i - q.i, true) + Used(cfg, cfg.optstring, ord, args, r)) ==
           Marks(r.i - p.i, true) + Used(cfg, cfg.optstring, ord, args, r);
  }

  /** What of an option's argument is in the same element. */
  function AttachedText(arg: Arg): string {
    if arg.Attached? then arg.text else ""
  }

  /** The rest of the elements of the item stands in the vector. */
  predicate Follows(cfg: Config, args: seq<string>, i: nat, arg: Arg) {
    i < |args| && (arg.Separate? ==> i + 1 < |args| && args[i + 1] == arg.text)
  }

  function Behind(i: nat, arg: Arg): nat {
    i + if arg.Separate? then 2 else 1
  }

  lemma {:induction false} FlagCall(cfg: Config, os: string, ord: Ordering, args: seq<string>, i: nat, c: char, more: string)
    requires i < |args| && Sees(cfg, os) && IsFlag(cfg, c) && more != ""
    ensures CallAt(cfg, os, ord, args, Position(i, [c] + more)) == Returned(i, FlagAnswer(cfg, c), Position(i, more))
  {
    SeenKind(cfg, os, c);
    assert ([c] + more)[1..] == more;
  }

  lemma {:induction false} LastCall(cfg: Config, os: string, ord: Ordering, args: seq<string>, i: nat, item: Item)
    requires item.Short? && Writable(cfg, item) && Sees(cfg, os) && Follows(cfg, args, i, item.arg)
    requires Starved(cfg, item) ==> i + 1 == |args|
    ensures CallAt(cfg, os, ord, args, Position(i, [item.c] + AttachedText(item.arg))) ==
            Returned(i, LastAnswer(cfg, item), Position(Behind(i, item.arg), ""))
  {
    SeenKind(cfg, os, item.c);
    if Starved(cfg, item) {
      SeenMissing(cfg, os);
    }
    assert ([item.c] + AttachedText(item.arg))[1..] == AttachedText(item.arg);
    hide KindOf, Missing, MissingCode, Sees;
  }

  lemma {:induction false} ClusterCalls(cfg: Config, os: string, ord: Ordering, args: seq<string>, i: nat, item: Item, flags: string)
    requires item.Short? && Writable(cfg, item) && Sees(cfg, os) && Follows(cfg, args, i, item.arg)
    requires Starved(cfg, item) ==> i + 1 == |args|
    requires forall k :: 0 <= k < |flags| ==> IsFlag(cfg, flags[k])
    ensures Steps(cfg, os, ord, args, Position(i, flags + ([item.c] + AttachedText(item.arg))),
                  FlagAnswers(cfg, flags) + [LastAnswer(cfg, item)], Position(Behind(i, item.arg), ""))
    decreases |flags|
  {
    hide Writable, Starved, LastAnswer, CallAt, Steps, IsFlag, FlagAnswer, Sees;
    var last := [item.c] + AttachedText(item.arg);
    var end := Position(Behind(i, item.arg), "");
    if flags == "" {
      LastCall(cfg, os, ord, args, i, item);
      assert flags + last == last && FlagAnswers(cfg, flags) + [LastAnswer(cfg, item)] == [LastAnswer(cfg, item)];
      OneCall(cfg, os, ord, args, Position(i, last), LastAnswer(cfg, item), end);
    } else {
      var more := flags[1..] + last;
      assert flags + last == [flags[0]] + more;
      FlagCall(cfg, os, ord, args, i, flags[0], more);
      OneCall(cfg, os, ord, args, Position(i, flags + last), FlagAnswer(cfg, flags[0]), Position(i, more));
      SeesItself(cfg);
      ClusterCalls(cfg, cfg.optstring, ord, args, i, item, flags[1..]);
      var rest := FlagAnswers(cfg, flags[1..]) + [LastAnswer(cfg, item)];
      StepsMore(cfg, os, ord, args, Position(i, flags + last), [FlagAnswer(cfg, flags[0])], Position(i, more), rest, end);
      AssocAnswers([FlagAnswer(cfg, flags[0])], FlagAnswers(cfg, flags[1..]), [LastAnswer(cfg, item)]);
    }
  }

  lemma {:induction false} SeesItself(cfg: Config)
    ensures Sees(cfg, cfg.optstring)
  {
  }

  /** Beginning an element is the same call as going on behind its dash. */
  lemma {:induction false} Entering(cfg: Config, os: string, ord: Ordering, args: seq<string>, i: nat, rest: string)
    requires i < |args| && rest != "" && args[i] == "-" + rest && rest[0] != '-'
    ensures Answers(cfg, os, ord, args, Position(i, "")) == Answers(cfg, os, ord, args, Position(i, rest))
    ensures Used(cfg, os, ord, args, Position(i, "")) == Used(cfg, os, ord, args, Position(i, rest))
  {
    EnteringCall(cfg, os, ord, args, i, rest);
    hide *;
    AnswersUnfold(cfg, os, ord, args, Position(i, ""));
    AnswersUnfold(cfg, os, ord, args, Position(i, rest));
    UsedUnfold(cfg, os, ord, args, Position(i, ""));
    UsedUnfold(cfg, os, ord, args, Position(i, rest));
  }

  lemma {:induction false} EnteringCall(cfg: Config, os: string, ord: Ordering, args: seq<string>, i: nat, rest: string)
    requires i < |args| && rest != "" && args[i] == "-" + rest && rest[0] != '-'
    ensures CallAt(cfg, os, ord, args, Position(i, "")) == CallAt(cfg, os, ord, args, Position(i, rest))
    ensures CallAt(cfg, os, ord, args, Position(i, rest)).Returned?
  {
    hide ShortStep;
    assert args[i][1..] == rest && args[i][1] == rest[0] && args[i] != "--";
  }

  lemma {:induction false} LongCall(cfg: Config, os: string, ord: Ordering, args: seq<string>, i: nat, item: Item)
    requires item.Long? && Writable(cfg, item) && Sees(cfg, os) && Follows(cfg, args, i, item.arg)
    requires args[i] == Elements(item)[0] && (Starved(cfg, item) ==> i + 1 == |args|)
    ensures CallAt(cfg, os, ord, args, Position(i, "")) == Returned(i, LastAnswer(cfg, item), Position(Behind(i, item.arg), ""))
  {
    LongElement(cfg, os, ord, args, i, item);
    LongAnswered(cfg, os, args, i, item);
    hide *;
  }

  /** A long option, behind its dashes. */
  function LongText(item: Item): string
    requires item.Long?
  {
    item.name + if item.arg.Attached? then "=" + item.arg.text else ""
  }

  lemma {:induction false} LongElement(cfg: Config, os: string, ord: Ordering, args: seq<string>, i: nat, item: Item)
    requires item.Long? && Writable(cfg, item) && i < |args| && args[i] == Elements(item)[0]
    ensures var (a, n) := LongStep(cfg, cfg.longopts.value, args, i, LongText(item), os);
            CallAt(cfg, os, ord, args, Position(i, "")) == Returned(i, a, Position(n, ""))
  {
    hide LongStep, Named;
    assert args[i] == "--" + LongText(item);
    assert args[i][2..] == LongText(item) && args[i] != "--" && args[i][0] == '-' && args[i][1] == '-';
  }

  lemma {:induction false} LongAnswered(cfg: Config, os: string, args: seq<string>, i: nat, item: Item)
    requires item.Long? && Writable(cfg, item) && Sees(cfg, os) && Follows(cfg, args, i, item.arg)
    requires Starved(cfg, item) ==> i + 1 == |args|
    ensures LongStep(cfg, cfg.longopts.value, args, i, LongText(item), os) == (LastAnswer(cfg, item), Behind(i, item.arg))
  {
    NameEnds(item);
    NamedExactly(cfg, item.name);
    if Starved(cfg, item) {
      SeenMissing(cfg, os);
    }
    hide Named, FindLong, Missing, MissingCode, Sees, NameEnd;
  }

  lemma {:induction false} NameEnds(item: Item)
    requires item.Long? && '=' !in item.name
    ensures var n := NameEnd(LongText(item));
            n == |item.name| && LongText(item)[..n] == item.name && (n < |LongText(item)| <==> item.arg.Attached?) &&
            (item.arg.Attached? ==> LongText(item)[n + 1..] == item.arg.text)
  {
    var text := LongText(item);
    var n := NameEnd(text);
    assert forall k :: 0 <= k < |item.name| ==> text[k] == item.name[k];
    assert forall k :: 0 <= k < n ==> text[k] == text[..n][k];
    assert n < |text| ==> text[n] == '=';
    if item.arg.Attached? {
      assert text[|item.name|] == '=';
    }
  }

  lemma {:induction false} NamedExactly(cfg: Config, name: string)
    requires cfg.longopts.Some?
    ensures match FindLong(cfg.longopts.value, name)
            case Found(o) => Named(cfg, name) == Some(o)
            case _ => Named(cfg, name) == None
  {
    FoundExactly(cfg.longopts.value, name);
    hide StandsFor, FindLong;
  }

  /** An option with its argument. */
  lemma {:induction false} ItemCalls(cfg: Config, os: string, ord: Ordering, args: seq<string>, i: nat, item: Item)
    requires (item.Short? || item.Long?) && Writable(cfg, item) && Sees(cfg, os) && Follows(cfg, args, i, item.arg)
    requires args[i] == Elements(item)[0] && (Starved(cfg, item) ==> i + 1 == |args|)
    ensures Steps(cfg, os, ord, args, Position(i, ""), ItemAnswers(cfg, item), Position(Behind(i, item.arg), ""))
  {
    hide CallAt, Starved, LastAnswer, FlagAnswers, Sees;
    var end := Position(Behind(i, item.arg), "");
    if item.Long? {
      LongCall(cfg, os, ord, args, i, item);
      hide Writable, Steps;
      OneCall(cfg, os, ord, args, Position(i, ""), LastAnswer(cfg, item), end);
      assert [] + [LastAnswer(cfg, item)] == [LastAnswer(cfg, item)];
    } else {
      var rest := item.flags + ([item.c] + AttachedText(item.arg));
      assert args[i] == "-" + rest;
      FirstIsNoDash(cfg, item);
      ClusterCalls(cfg, os, ord, args, i, item, item.flags);
      hide Writable;
      Entering(cfg, os, ord, args, i, rest);
      hide Answers, Used;
    }
  }

  lemma {:induction false} FirstIsNoDash(cfg: Config, item: Item)
    requires item.Short? && Writable(cfg, item)
    ensures var rest := item.flags + ([item.c] + AttachedText(item.arg)); rest != "" && rest[0] != '-'
    ensures forall k :: 0 <= k < |item.flags| ==> IsFlag(cfg, item.flags[k])
  {
    if item.flags != "" {
      assert IsFlag(cfg, item.flags[0]);
    }
  }

  // ----- all calls

  /** Which of the elements are used up. */
  function TakenUp(ord: Ordering, items: seq<Item>): (m: seq<bool>)
    ensures |m| == |Written(items)|
  {
    if items == [] then []
    else
      match items[0]
      case Operand(text) =>
        (match ord
         case Permute => [false] + TakenUp(ord, items[1..])
         case ReturnInOrder => [true] + TakenUp(ord, items[1..])
         case RequireOrder => Marks(|Written(items)|, false))
      case Stop(rest) => [true] + Marks(|Written(items)| - 1, false)
      case _ => Marks(|Elements(items[0])|, true) + TakenUp(ord, items[1..])
  }

  /** What a vector was written from is what it is answered. */
  lemma {:induction false} ReadsBack(cfg: Config, os: string, ord: Ordering, args: seq<string>, i: nat, items: seq<Item>)
    requires i <= |args| && args[i..] == Written(items) && AllWritable(cfg, items) && Sees(cfg, os)
    ensures Answers(cfg, os, ord, args, Position(i, "")) == Expected(cfg, ord, items)
    ensures Used(cfg, os, ord, args, Position(i, "")) == TakenUp(ord, items)
    decreases |items|
  {
    hide *;
    if items == [] {
      NothingWritten(cfg, ord, args, i, items);
      AtEnd(cfg, os, ord, args, i);
    } else {
      WrittenStep(cfg, args, i, items);
      ExpectedStep(cfg, ord, items);
      SeesItself(cfg);
      match items[0]
      case Operand(text) =>
        OperandStep(cfg, os, ord, args, i, text);
        if ord.Permute? {
          ReadsBack(cfg, os, ord, args, i + 1, items[1..]);
        } else if ord.ReturnInOrder? {
          ReadsBack(cfg, cfg.optstring, ord, args, i + 1, items[1..]);
        }
      case Stop(rest) =>
        StopStep(cfg, os, ord, args, i);
      case _ =>
        var n := |Elements(items[0])|;
        ItemCalls(cfg, os, ord, args, i, items[0]);
        StepsIs(cfg, os, ord, args, Position(i, ""), ItemAnswers(cfg, items[0]), Position(Behind(i, items[0].arg), ""));
        ReadsBack(cfg, cfg.optstring, ord, args, i + n, items[1..]);
    }
  }

  lemma {:induction false} NothingWritten(cfg: Config, ord: Ordering, args: seq<string>, i: nat, items: seq<Item>)
    requires items == [] && i <= |args| && args[i..] == Written(items)
    ensures i == |args| && Expected(cfg, ord, items) == [] && TakenUp(ord, items) == []
  {
  }

  lemma {:induction false} AtEnd(cfg: Config, os: string, ord: Ordering, args: seq<string>, i: nat)
    requires i == |args|
    ensures Answers(cfg, os, ord, args, Position(i, "")) == [] && Used(cfg, os, ord, args, Position(i, "")) == []
  {
    hide ElementCall;
  }

  /** The elements of the first item, and those of the others behind them. */
  lemma {:induction false} WrittenStep(cfg: Config, args: seq<string>, i: nat, items: seq<Item>)
    requires items != [] && i <= |args| && args[i..] == Written(items) && AllWritable(cfg, items)
    ensures var n := |Elements(items[0])|;
            n > 0 && i + n <= |args| && args[i] == Elements(items[0])[0] && args[i + n..] == Written(items[1..]) &&
            Writable(cfg, items[0]) && AllWritable(cfg, items[1..]) && (Starved(cfg, items[0]) ==> i + 1 == |args|)
    ensures items[0].Short? || items[0].Long? ==>
            Follows(cfg, args, i, items[0].arg) && Behind(i, items[0].arg) == i + |Elements(items[0])|
    ensures items[0].Operand? ==> |Elements(items[0])| == 1 && args[i] == items[0].text && (|args[i]| < 2 || args[i][0] != '-')
    ensures items[0].Stop? ==> args[i] == "--"
    ensures |Written(items)| == |args| - i
  {
    hide Starved, Writable, AllWritable;
    var e := Elements(items[0]);
    assert Written(items) == e + Written(items[1..]);
    assert forall k :: 0 <= k < |e| ==> args[i + k] == args[i..][k] == e[k];
    assert args[i + |e|..] == args[i..][|e|..];
    Parts(cfg, items);
  }

  lemma {:induction false} Parts(cfg: Config, items: seq<Item>)
    requires items != [] && AllWritable(cfg, items)
    ensures Writable(cfg, items[0]) && AllWritable(cfg, items[1..])
    ensures (Starved(cfg, items[0]) || items[0].Stop? ==> items[1..] == []) && Written([]) == []
    ensures Starved(cfg, items[0]) ==> |Elements(items[0])| == 1
    ensures items[0].Operand? ==> |items[0].text| < 2 || items[0].text[0] != '-'
  {
  }

  lemma {:induction false} ExpectedStep(cfg: Config, ord: Ordering, items: seq<Item>)
    requires items != []
    ensures (items[0].Short? || items[0].Long?) ==>
      Expected(cfg, ord, items) == ItemAnswers(cfg, items[0]) + Expected(cfg, ord, items[1..]) &&
      TakenUp(ord, items) == Marks(|Elements(items[0])|, true) + TakenUp(ord, items[1..])
    ensures items[0].Operand? ==>
      Expected(cfg, ord, items) ==
        (match ord
         case Permute => Expected(cfg, ord, items[1..])
         case ReturnInOrder => [Answer(1, Some(items[0].text))] + Expected(cfg, ord, items[1..])
         case RequireOrder => []) &&
      TakenUp(ord, items) ==
        (match ord
         case Permute => [false] + TakenUp(ord, items[1..])
         case ReturnInOrder => [true] + TakenUp(ord, items[1..])
         case RequireOrder => Marks(|Written(items)|, false))
    ensures items[0].Stop? ==>
      Expected(cfg, ord, items) == [] && |Written(items)| >= 1 && TakenUp(ord, items) == [true] + Marks(|Written(items)| - 1, false)
  {
    hide ItemAnswers;
  }

  lemma {:induction false} OperandStep(cfg: Config, os: string, ord: Ordering, args: seq<string>, i: nat, text: string)
    requires i < |args| && args[i] == text && (|text| < 2 || text[0] != '-')
    ensures match ord
            case Permute =>
              Answers(cfg, os, ord, args, Position(i, "")) == Answers(cfg, os, ord, args, Position(i + 1, "")) &&
              Used(cfg, os, ord, args, Position(i, "")) == [false] + Used(cfg, os, ord, args, Position(i + 1, ""))
            case ReturnInOrder =>
              Answers(cfg, os, ord, args, Position(i, "")) == [Answer(1, Some(text))] + Answers(cfg, cfg.optstring, ord, args, Position(i + 1, "")) &&
              Used(cfg, os, ord, args, Position(i, "")) == [true] + Used(cfg, cfg.optstring, ord, args, Position(i + 1, ""))
            case RequireOrder =>
              Answers(cfg, os, ord, args, Position(i, "")) == [] &&
              Used(cfg, os, ord, args, Position(i, "")) == Marks(|args| - i, false)
  {
    hide *;
    OperandCall(cfg, os, ord, args, i);
    if ord.Permute? {
      PassedOverCall(cfg, os, args, i);
    } else {
      UsedUnfold(cfg, os, ord, args, Position(i, ""));
      AnswersUnfold(cfg, os, ord, args, Position(i, ""));
      assert [] + Answers(cfg, os, ord, args, Position(i, "")) == Answers(cfg, os, ord, args, Position(i, ""));
      assert Marks(0, false) == [] && Marks(1, true) == [true];
      assert [] + [true] == [true] && [] + [] + Marks(|args| - i, false) == Marks(|args| - i, false);
    }
  }

  lemma {:induction false} OperandCall(cfg: Config, os: string, ord: Ordering, args: seq<string>, i: nat)
    requires i < |args| && (|args[i]| < 2 || args[i][0] != '-')
    ensures match ord
            case Permute => true
            case ReturnInOrder => CallAt(cfg, os, ord, args, Position(i, "")) == Returned(i, Answer(1, Some(args[i])), Position(i + 1, ""))
            case RequireOrder => CallAt(cfg, os, ord, args, Position(i, "")) == Finished(i) && args[i] != "--"
  {
  }

  /** In permuting order the scan passes over an operand. */
  lemma {:induction false} PassedOverCall(cfg: Config, os: string, args: seq<string>, i: nat)
    requires i < |args| && (|args[i]| < 2 || args[i][0] != '-')
    ensures Answers(cfg, os, Permute, args, Position(i, "")) == Answers(cfg, os, Permute, args, Position(i + 1, ""))
    ensures Used(cfg, os, Permute, args, Position(i, "")) == [false] + Used(cfg, os, Permute, args, Position(i + 1, ""))
  {
    SameCall(cfg, os, args, i);
    hide *;
    match CallAt(cfg, os, Permute, args, Position(i, ""))
    case Finished(j) => PassedOverAtEnd(cfg, os, args, i, j);
    case Returned(j, a, r) => PassedOverToOption(cfg, os, args, i, j, a, r);
  }

  lemma {:induction false} PassedOverAtEnd(cfg: Config, os: string, args: seq<string>, i: nat, j: nat)
    requires i < j <= |args|
    requires CallAt(cfg, os, Permute, args, Position(i, "")) == CallAt(cfg, os, Permute, args, Position(i + 1, "")) == Finished(j)
    ensures Answers(cfg, os, Permute, args, Position(i, "")) == Answers(cfg, os, Permute, args, Position(i + 1, ""))
    ensures Used(cfg, os, Permute, args, Position(i, "")) == [false] + Used(cfg, os, Permute, args, Position(i + 1, ""))
  {
    hide *;
    AnswersUnfold(cfg, os, Permute, args, Position(i, ""));
    AnswersUnfold(cfg, os, Permute, args, Position(i + 1, ""));
    UsedUnfold(cfg, os, Permute, args, Position(i, ""));
    UsedUnfold(cfg, os, Permute, args, Position(i + 1, ""));
    var stop := if j < |args| && args[j] == "--" then [true] else [];
    OneMark(j - i, stop, Marks(|args| - j - |stop|, false));
  }

  lemma {:induction false} PassedOverToOption(cfg: Config, os: string, args: seq<string>, i: nat, j: nat, a: Answer, r: Position)
    requires i < j < |args|
    requires CallAt(cfg, os, Permute, args, Position(i, "")) == CallAt(cfg, os, Permute, args, Position(i + 1, "")) == Returned(j, a, r)
    ensures Answers(cfg, os, Permute, args, Position(i, "")) == Answers(cfg, os, Permute, args, Position(i + 1, ""))
    ensures Used(cfg, os, Permute, args, Position(i, "")) == [false] + Used(cfg, os, Permute, args, Position(i + 1, ""))
  {
    hide *;
    AnswersUnfold(cfg, os, Permute, args, Position(i, ""));
    AnswersUnfold(cfg, os, Permute, args, Position(i + 1, ""));
    UsedUnfold(cfg, os, Permute, args, Position(i, ""));
    UsedUnfold(cfg, os, Permute, args, Position(i + 1, ""));
    OneMark(j - i, Marks(r.i - j, true), Used(cfg, cfg.optstring, Permute, args, r));
  }

  lemma {:induction false} OneMark(n: nat, m: seq<bool>, rest: seq<bool>)
    requires n > 0
    ensures Marks(n, false) + m + rest == [false] + (Marks(n - 1, false) + m + rest)
  {
  }

  lemma {:induction false} SameCall(cfg: Config, os: string, args: seq<string>, i: nat)
    requires i < |args| && (|args[i]| < 2 || args[i][0] != '-')
    ensures CallAt(cfg, os, Permute, args, Position(i, "")) == CallAt(cfg, os, Permute, args, Position(i + 1, ""))
    ensures match CallAt(cfg, os, Permute, args, Position(i, "")) case Finished(j) => j > i case Returned(j, _, _) => j > i
  {
    hide ElementCall;
  }

  lemma {:induction false} StopStep(cfg: Config, os: string, ord: Ordering, args: seq<string>, i: nat)
    requires i < |args| && args[i] == "--"
    ensures Answers(cfg, os, ord, args, Position(i, "")) == []
    ensures Used(cfg, os, ord, args, Position(i, "")) == [true] + Marks(|args| - i - 1, false)
  {
    assert CallAt(cfg, os, ord, args, Position(i, "")) == Finished(i);
    hide CallAt;
    UsedUnfold(cfg, os, ord, args, Position(i, ""));
    AnswersUnfold(cfg, os, ord, args, Position(i, ""));
    hide Answers, Used;
    assert Marks(0, false) == [];
  }

  // ----- what is left

  lemma {:induction false} SplitUp(cfg: Config, ord: Ordering, items: seq<Item>)
    requires AllWritable(cfg, items)
    ensures Select(Written(items), TakenUp(ord, items), true) == Consumed(ord, items)
    ensures Select(Written(items), TakenUp(ord, items), false) == Remaining(ord, items)
    decreases |items|
  {
    hide *;
    ConsumedStep(cfg, ord, items);
    if items != [] {
      Parts(cfg, items);
      ExpectedStep(cfg, ord, items);
      SplitUp(cfg, ord, items[1..]);
      var e, more, m := Elements(items[0]), Written(items[1..]), TakenUp(ord, items[1..]);
      match items[0]
      case Operand(text) =>
        if ord.RequireOrder? {
          SelectAll(Written(items), Marks(|Written(items)|, false), false);
        } else {
          SelectOne(text, more, m, !ord.Permute?);
        }
      case Stop(rest) =>
        SelectOne("--", rest, Marks(|rest|, false), true);
        SelectAll(rest, Marks(|rest|, false), false);
      case _ =>
        SelectAppend(e, Marks(|e|, true), more, m, true);
        SelectAppend(e, Marks(|e|, true), more, m, false);
        SelectAll(e, Marks(|e|, true), true);
    }
  }

  lemma {:induction false} ConsumedStep(cfg: Config, ord: Ordering, items: seq<Item>)
    requires AllWritable(cfg, items)
    ensures items == [] ==>
      Written(items) == [] && Select(Written(items), TakenUp(ord, items), true) == Select(Written(items), TakenUp(ord, items), false) == [] &&
      Consumed(ord, items) == Remaining(ord, items) == []
    ensures items != [] && (items[0].Short? || items[0].Long?) ==>
      Written(items) == Elements(items[0]) + Written(items[1..]) &&
      Consumed(ord, items) == Elements(items[0]) + Consumed(ord, items[1..]) && Remaining(ord, items) == Remaining(ord, items[1..])
    ensures items != [] && items[0].Operand? ==>
      Written(items) == [items[0].text] + Written(items[1..]) &&
      match ord
      case Permute => Consumed(ord, items) == Consumed(ord, items[1..]) && Remaining(ord, items) == [items[0].text] + Remaining(ord, items[1..])
      case ReturnInOrder => Consumed(ord, items) == [items[0].text] + Consumed(ord, items[1..]) && Remaining(ord, items) == Remaining(ord, items[1..])
      case RequireOrder => Consumed(ord, items) == [] && Remaining(ord, items) == Written(items)
    ensures items != [] && items[0].Stop? ==>
      Written(items) == ["--"] + items[0].rest && Consumed(ord, items) == ["--"] && Remaining(ord, items) == items[0].rest
  {
    hide Writable, Starved, TakenUp;
    if items != [] {
      Parts(cfg, items);
    }
  }

  lemma {:induction false} SelectOne(text: string, s: seq<string>, m: seq<bool>, b: bool)
    requires |s| == |m|
    ensures Select([text] + s, [b] + m, b) == [text] + Select(s, m, b)
    ensures Select([text] + s, [b] + m, !b) == Select(s, m, !b)
  {
    assert ([text] + s)[1..] == s && ([b] + m)[1..] == m;
  }

  /** Parsing a vector that was written from such items answers just these, and leaves in the vector first what was
      used up and then what is left, from `first` on, both as they were written. */
  method ParseWritten(argv: array<string>, cfg: Config, posixlyCorrect: bool, ghost items: seq<Item>)
      returns (answers: seq<Answer>, first: nat)
    requires argv.Length >= 1 && argv[1..] == Written(items) && AllWritable(cfg, items) && !LongByW(cfg.optstring)
    modifies argv
    ensures var ord := if cfg.optstring != "" && cfg.optstring[0] == '-' then ReturnInOrder
                       else if cfg.optstring != "" && cfg.optstring[0] == '+' then RequireOrder
                       else if posixlyCorrect then RequireOrder else Permute;
            answers == Expected(cfg, ord, items) && first == 1 + |Consumed(ord, items)| &&
            argv[..] == [old(argv[0])] + Consumed(ord, items) + Remaining(ord, items)
  {
    ghost var ord := OrderingOf(cfg, posixlyCorrect);
    assert ord == if cfg.optstring != "" && cfg.optstring[0] == '-' then ReturnInOrder
                  else if cfg.optstring != "" && cfg.optstring[0] == '+' then RequireOrder
                  else if posixlyCorrect then RequireOrder else Permute;
    ghost var orig := argv[..];
    assert orig[1..] == Written(items);
    assert Sees(cfg, FirstOptstring(cfg));
    ReadsBack(cfg, FirstOptstring(cfg), ord, orig, 1, items);
    SplitUp(cfg, ord, items);
    hide Answers, Used, Expected, TakenUp, Select, Written, AllWritable, Consumed, Remaining, OrderingOf, FirstOptstring, LongByW;
    ghost var used;
    answers, first, used := ParseAll(argv, cfg, posixlyCorrect);
    assert orig[..1] == [orig[0]];
  }
}
