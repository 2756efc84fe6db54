/** getopt with its scanning state, permuting the argument vector in place as it goes. */
module Getopt {
  import opened Wrappers
  import opened ArgvBlocks
  import opened GetoptSpec

  /** The vector `a` in the middle of a scan of `orig`.  The elements below `o` are scanned, and
      `marks` tells which of them were used up.  Those stand in their original order in [1, f)
      and [l, o), the passed-over ones in [f, l), and the rest is untouched. */
  ghost predicate Layout(a: seq<string>, orig: seq<string>, marks: seq<bool>, f: nat, l: nat, o: nat) {
    1 <= f <= l <= o <= |orig| == |a| && |marks| == o - 1 && a[0] == orig[0] && a[o..] == orig[o..] &&
    a[1..f] + a[l..o] == Select(orig[1..o], marks, true) &&
    a[f..l] == Select(orig[1..o], marks, false)
  }

  /** The vector when the scan is over: everything used up comes first, then what is left, each in
      the original order, and `o` is where the latter begins. */
  ghost predicate FinalLayout(a: seq<string>, orig: seq<string>, used: seq<bool>, o: nat) {
    1 <= |orig| && |used| == |orig| - 1 &&
    a == orig[..1] + Select(orig[1..], used, true) + Select(orig[1..], used, false) &&
    o == 1 + |Select(orig[1..], used, true)|
  }

  lemma {:induction false} LayoutStart(a: seq<string>)
    requires |a| >= 1
    ensures Layout(a, a, [], 1, 1, 1)
  {
  }

  /** Exchanging the passed-over elements with the options behind them. */
  lemma {:induction false} LayoutExchange(a: seq<string>, orig: seq<string>, marks: seq<bool>, f: nat, l: nat, o: nat)
    requires Layout(a, orig, marks, f, l, o)
    ensures Layout(Rotated(a, f, l, o), orig, marks, f + (o - l), o, o)
  {
    var r, f' := Rotated(a, f, l, o), f + (o - l);
    assert r[1..f'] == a[1..f] + a[l..o];
    assert r[f'..o] == a[f..l];
    assert r[o..] == a[o..];
    assert r[o..o] == [];
    assert a[1..f] + a[l..o] + [] == a[1..f] + a[l..o];
  }

  /** With nothing passed over, the options so far simply stand in front. */
  lemma {:induction false} LayoutNoneSkipped(a: seq<string>, orig: seq<string>, marks: seq<bool>, f: nat, o: nat)
    requires Layout(a, orig, marks, f, f, o)
    ensures Layout(a, orig, marks, o, o, o)
  {
    assert a[1..f] + a[f..o] == a[1..o];
    assert a[1..o] + a[o..o] == a[1..o];
  }

  lemma {:induction false} SelectMore(orig: seq<string>, marks: seq<bool>, o: nat, n: nat, b: bool)
    requires 1 <= o && o + n <= |orig| && |marks| == o - 1
    ensures Select(orig[1..o + n], marks + Marks(n, b), b) == Select(orig[1..o], marks, b) + orig[o..o + n]
    ensures Select(orig[1..o + n], marks + Marks(n, b), !b) == Select(orig[1..o], marks, !b)
  {
    assert orig[1..o + n] == orig[1..o] + orig[o..o + n];
    SelectAppend(orig[1..o], marks, orig[o..o + n], Marks(n, b), b);
    SelectAppend(orig[1..o], marks, orig[o..o + n], Marks(n, b), !b);
    SelectAll(orig[o..o + n], Marks(n, b), b);
  }

  /** Passing over `n` more elements. */
  lemma {:induction false} LayoutSkip(a: seq<string>, orig: seq<string>, marks: seq<bool>, f: nat, o: nat, n: nat)
    requires Layout(a, orig, marks, f, o, o) && o + n <= |orig|
    ensures Layout(a, orig, marks + Marks(n, false), f, o + n, o + n)
  {
    SelectMore(orig, marks, o, n, false);
    SlicesMore(a, orig, f, o, n);
    hide Select, Marks;
    assert a[o..o] == [] == a[o + n..o + n];
  }

  /** Using up `n` more elements. */
  lemma {:induction false} LayoutUse(a: seq<string>, orig: seq<string>, marks: seq<bool>, f: nat, l: nat, o: nat, n: nat)
    requires Layout(a, orig, marks, f, l, o) && o + n <= |orig|
    ensures Layout(a, orig, marks + Marks(n, true), f, l, o + n)
  {
    SelectMore(orig, marks, o, n, true);
    SlicesMore(a, orig, l, o, n);
    hide Select, Marks;
    assert a[1..f] + (a[l..o] + orig[o..o + n]) == (a[1..f] + a[l..o]) + orig[o..o + n];
  }

  lemma {:induction false} SlicesMore(a: seq<string>, orig: seq<string>, l: nat, o: nat, n: nat)
    requires l <= o && o + n <= |a| == |orig| && a[o..] == orig[o..]
    ensures a[l..o + n] == a[l..o] + orig[o..o + n] && a[o + n..] == orig[o + n..]
  {
    assert a[o..o + n] == a[o..][..n] == orig[o..][..n] == orig[o..o + n];
    assert a[o + n..] == a[o..][n..] == orig[o..][n..] == orig[o + n..];
  }

  /** The scan stops: whatever has not been scanned is left for the caller. */
  lemma {:induction false} LayoutFinal(a: seq<string>, orig: seq<string>, marks: seq<bool>, f: nat, o: nat)
    requires Layout(a, orig, marks, f, o, o)
    ensures FinalLayout(a, orig, marks + Marks(|orig| - o, false), f)
  {
    var n: nat := |orig| - o;
    LayoutSkip(a, orig, marks, f, o, n);
    assert orig[1..o + n] == orig[1..];
    assert a[1..f] + a[o + n..o + n] == a[1..f];
    assert a == a[..1] + a[1..f] + a[f..];
    assert a[f..o + n] == a[f..];
    assert a[..1] == orig[..1];
  }

  lemma {:induction false} AbbreviatedAppend(opts: seq<LongOpt>, o: LongOpt, name: string)
    ensures Abbreviated(opts + [o], name) == Abbreviated(opts, name) + (if name <= o.name then [o] else [])
    ensures Exact(opts + [o], name) == if Exact(opts, name).Some? then Exact(opts, name)
                                       else if o.name == name then Some(o) else None
  {
    if opts == [] {
      assert opts + [o] == [o];
    } else {
      assert (opts + [o])[1..] == opts[1..] + [o];
      AbbreviatedAppend(opts[1..], o, name);
    }
  }

  lemma {:induction false} ExactIsFirst(opts: seq<LongOpt>, k: nat, name: string)
    requires k < |opts| && Exact(opts[..k], name).None? && opts[k].name == name
    ensures Exact(opts, name) == Some(opts[k])
  {
    if k > 0 {
      assert opts[..k][1..] == opts[1..][..k - 1];
      ExactIsFirst(opts[1..], k - 1, name);
    }
  }

  /** The search for a long option: an exact match ends it, and of the other matches the first is
      kept and a second one noted. */
  method LookUpLong(opts: seq<LongOpt>, name: string) returns (m: LongMatch)
    ensures m == FindLong(opts, name)
  {
    var pfound: Option<LongOpt>, ambig := None, false;
    for k := 0 to |opts|
      invariant Exact(opts[..k], name).None?
      invariant pfound == if Abbreviated(opts[..k], name) == [] then None else Some(Abbreviated(opts[..k], name)[0])
      invariant ambig == (|Abbreviated(opts[..k], name)| >= 2)
    {
      assert opts[..k + 1] == opts[..k] + [opts[k]];
      AbbreviatedAppend(opts[..k], opts[k], name);
      if name <= opts[k].name {
        if |name| == |opts[k].name| {
          ExactIsFirst(opts, k, name);
          return Found(opts[k]);
        } else if pfound.None? {
          pfound := Some(opts[k]);
        } else {
          ambig := true;
        }
      }
    }
    assert opts[..|opts|] == opts;
    return if ambig then Ambiguous else if pfound.Some? then Found(pfound.value) else Unknown;
  }

  /** The marks of a scan that stops at `j`. */
  ghost function Stopping(orig: seq<string>, marks: seq<bool>, i: nat, j: nat): seq<bool>
    requires i <= j <= |orig|
  {
    var stop := if j < |orig| && orig[j] == "--" then [true] else [];
    marks + (Marks(j - i, false) + stop + Marks(|orig| - j - |stop|, false))
  }

  /** The ordering that the option string and the environment ask for. */
  function OrderingOf(cfg: Config, posixlyCorrect: bool): Ordering {
    if cfg.optstring != "" && cfg.optstring[0] == '-' then ReturnInOrder
    else if cfg.optstring != "" && cfg.optstring[0] == '+' then RequireOrder
    else if posixlyCorrect then RequireOrder else Permute
  }

  /** The option string that the first call sees. */
  function FirstOptstring(cfg: Config): (r: string)
    ensures LongByW(r) <==> LongByW(cfg.optstring)
  {
    if cfg.optstring != "" && cfg.optstring[0] in ['-', '+'] then cfg.optstring[1..] else cfg.optstring
  }

  /** The static variables of getopt. */
  class Scanner {
    const cfg: Config
    const posixlyCorrect: bool
    var optind: nat
    var firstNonopt: nat
    var lastNonopt: nat
    var nextchar: Option<string>
    var optarg: Option<string>
    var initialized: bool
    var ordering: Ordering

    constructor (cfg: Config, posixlyCorrect: bool)
      ensures this.cfg == cfg && this.posixlyCorrect == posixlyCorrect && !initialized && optind == 1
    {
      this.cfg, this.posixlyCorrect := cfg, posixlyCorrect;
      optind, firstNonopt, lastNonopt, nextchar, optarg := 1, 0, 0, None, None;
      initialized, ordering := false, Permute;
    }

    function Rest(): string
      reads this
    {
      if nextchar.Some? then nextchar.value else ""
    }

    /** The state between two calls. */
    ghost predicate Scanning(a: seq<string>, orig: seq<string>, marks: seq<bool>)
      reads this
    {
      Layout(a, orig, marks, firstNonopt, lastNonopt, optind) &&
      (!ordering.Permute? ==> firstNonopt == lastNonopt == 1) &&
      (Rest() != "" ==> optind < |orig| && !IsNonOption(orig[optind]) && !(cfg.longopts.Some? && orig[optind][1] == '-'))
    }

    /** Puts the options scanned last in front of the non-options before them, and passes over more
        non-options. */
    method Gather(argv: array<string>, ghost orig: seq<string>, ghost marks: seq<bool>) returns (ghost marks': seq<bool>)
      requires Scanning(argv[..], orig, marks) && Rest() == ""
      modifies this`optind, this`firstNonopt, this`lastNonopt, argv
      ensures old(optind) <= optind == Boundary(ordering, orig, old(optind)) <= |orig|
      ensures marks' == marks + Marks(optind - old(optind), false)
      ensures Layout(argv[..], orig, marks', firstNonopt, lastNonopt, optind)
      ensures if ordering.Permute? then lastNonopt == optind else firstNonopt == lastNonopt == 1
    {
      InRange(argv[..], orig, marks, firstNonopt, lastNonopt, optind);
      hide Layout;
      marks' := marks;
      if ordering.Permute? {
        PutOptionsFirst(argv, orig, marks);
        marks' := SkipNonOptions(argv, orig, marks);
      } else {
        assert marks + Marks(0, false) == marks;
      }
    }

    /** Move on to the next element: put the options behind the non-options, pass over more
        non-options, and deal with "--" and with the end. */
    method AdvanceElement(argv: array<string>, ghost orig: seq<string>, ghost marks: seq<bool>)
        returns (stop: bool, ghost marks': seq<bool>)
      requires Scanning(argv[..], orig, marks) && Rest() == ""
      modifies this`optind, this`firstNonopt, this`lastNonopt, argv
      ensures var j := Boundary(ordering, orig, old(optind));
              stop == (j == |orig| || orig[j] == "--") &&
              if stop then FinalLayout(argv[..], orig, Stopping(orig, marks, old(optind), j), optind)
              else optind == j && Scanning(argv[..], orig, marks') && marks' == marks + Marks(j - old(optind), false)
    {
      hide Layout, FinalLayout, Marks;
      ghost var i := optind;
      marks' := Gather(argv, orig, marks);
      ghost var j := optind;
      SameThere(argv[..], orig, marks', firstNonopt, lastNonopt, j);
      if optind != argv.Length && argv[optind] == "--" {
        EndOfOptions(argv, orig, marks');
        StoppingAt(orig, marks, i, j);
        return true, marks';
      }
      if optind == argv.Length {
        EndOfVector(argv, orig, marks');
        StoppingAt(orig, marks, i, j);
        return true, marks';
      }
      stop := false;
    }

    /** Options processed behind some non-options change places with them. */
    method PutOptionsFirst(argv: array<string>, ghost orig: seq<string>, ghost marks: seq<bool>)
      requires Layout(argv[..], orig, marks, firstNonopt, lastNonopt, optind)
      modifies this`firstNonopt, this`lastNonopt, argv
      ensures Layout(argv[..], orig, marks, firstNonopt, optind, optind)
    {
      InRange(argv[..], orig, marks, firstNonopt, lastNonopt, optind);
      hide Layout, Rotated, Select, Marks;
      if firstNonopt != lastNonopt && lastNonopt != optind {
        LayoutExchange(argv[..], orig, marks, firstNonopt, lastNonopt, optind);
        Exchange(argv, firstNonopt, lastNonopt, optind);
        firstNonopt := firstNonopt + (optind - lastNonopt);
        lastNonopt := optind;
      } else if lastNonopt != optind {
        LayoutNoneSkipped(argv[..], orig, marks, firstNonopt, optind);
        firstNonopt := optind;
      }
    }

    /** Pass over more non-options. */
    method SkipNonOptions(argv: array<string>, ghost orig: seq<string>, ghost marks: seq<bool>)
        returns (ghost marks': seq<bool>)
      requires Layout(argv[..], orig, marks, firstNonopt, optind, optind) && ordering.Permute?
      modifies this`optind, this`lastNonopt
      ensures optind == lastNonopt == Boundary(Permute, orig, old(optind))
      ensures Layout(argv[..], orig, marks', firstNonopt, optind, optind)
      ensures marks' == marks + Marks(optind - old(optind), false)
    {
      ghost var i := optind;
      while optind < argv.Length && IsNonOption(argv[optind])
        invariant i <= optind <= argv.Length && Boundary(Permute, orig, i) == Boundary(Permute, orig, optind)
      {
        assert orig[optind] == orig[i..][optind - i] == argv[..][i..][optind - i];
        optind := optind + 1;
      }
      if optind < argv.Length {
        assert orig[optind] == orig[i..][optind - i] == argv[..][i..][optind - i];
      }
      lastNonopt := optind;
      LayoutSkip(argv[..], orig, marks, firstNonopt, i, optind - i);
      marks' := marks + Marks(optind - i, false);
    }

    /** "--" is used up like an option, and everything behind it is left. */
    method EndOfOptions(argv: array<string>, ghost orig: seq<string>, ghost marks: seq<bool>)
      requires Layout(argv[..], orig, marks, firstNonopt, lastNonopt, optind) && optind < |orig|
      requires firstNonopt == lastNonopt || lastNonopt == optind
      modifies this`optind, this`firstNonopt, this`lastNonopt, argv
      ensures FinalLayout(argv[..], orig, marks + Marks(1, true) + Marks(|orig| - old(optind) - 1, false), optind)
    {
      hide Layout, FinalLayout, Rotated, Select, Marks;
      NextElement(argv[..], orig, marks, firstNonopt, lastNonopt, optind);
      LayoutUse(argv[..], orig, marks, firstNonopt, lastNonopt, optind, 1);
      ghost var marks' := marks + Marks(1, true);
      optind := optind + 1;
      if firstNonopt != lastNonopt && lastNonopt != optind {
        LayoutExchange(argv[..], orig, marks', firstNonopt, lastNonopt, optind);
        Exchange(argv, firstNonopt, lastNonopt, optind);
        firstNonopt := firstNonopt + (optind - lastNonopt);
        lastNonopt := optind;
      } else if firstNonopt == lastNonopt {
        LayoutNoneSkipped(argv[..], orig, marks', firstNonopt, optind);
        firstNonopt := optind;
      }
      LayoutFinal(argv[..], orig, marks', firstNonopt, optind);
      lastNonopt := argv.Length;
      optind := argv.Length;
      if firstNonopt != lastNonopt {
        optind := firstNonopt;
      }
    }

    /** The end of the vector. */
    method EndOfVector(argv: array<string>, ghost orig: seq<string>, ghost marks: seq<bool>)
      requires Layout(argv[..], orig, marks, firstNonopt, lastNonopt, optind) && optind == |orig|
      requires firstNonopt == lastNonopt || lastNonopt == optind
      modifies this`optind
      ensures FinalLayout(argv[..], orig, marks + Marks(0, false), optind)
    {
      hide Layout, FinalLayout;
      if firstNonopt == lastNonopt {
        LayoutNoneSkipped(argv[..], orig, marks, firstNonopt, optind);
        LayoutFinal(argv[..], orig, marks, optind, optind);
      } else {
        LayoutFinal(argv[..], orig, marks, firstNonopt, optind);
        optind := firstNonopt;
      }
    }

    /** The next character of an element with short options. */
    method ShortOption(argv: array<string>, optstring: string, ghost orig: seq<string>, ghost marks: seq<bool>)
        returns (code: int, ghost marks': seq<bool>)
      requires Scanning(argv[..], orig, marks) && Rest() != "" && optarg.None? && !LongByW(optstring)
      modifies this`optind, this`nextchar, this`optarg
      ensures var (a, q) := ShortStep(optstring, orig, old(optind), old(Rest()));
              Answer(code, optarg) == a && Position(optind, Rest()) == q &&
              marks' == marks + Marks(optind - old(optind), true)
      ensures Scanning(argv[..], orig, marks')
    {
      hide Layout;
      ghost var i := optind;
      NextElement(argv[..], orig, marks, firstNonopt, lastNonopt, i);
      var c := nextchar.value[0];
      nextchar := Some(nextchar.value[1..]);
      if nextchar.value == "" {
        optind := optind + 1;
      }
      match KindOf(optstring, c) {
        case NoSuchOption =>
          code := QUESTION;
        case NoArgument =>
          code := c as int;
        case OptionalArgument =>
          code := c as int;
          if nextchar.value != "" {
            optarg := nextchar;
            optind := optind + 1;
          }
          nextchar := None;
        case RequiredArgument =>
          code := c as int;
          if nextchar.value != "" {
            optarg := nextchar;
            optind := optind + 1;
          } else if optind == argv.Length {
            code := Missing(optstring);
          } else {
            optarg := Some(argv[optind]);
            optind := optind + 1;
          }
          nextchar := None;
      }
      LayoutUse(argv[..], orig, marks, firstNonopt, lastNonopt, i, optind - i);
      marks' := marks + Marks(optind - i, true);
    }

    /** An element with a long option. */
    method LongOption(argv: array<string>, opts: seq<LongOpt>, optstring: string,
                      ghost orig: seq<string>, ghost marks: seq<bool>)
        returns (code: int, ghost marks': seq<bool>)
      requires Layout(argv[..], orig, marks, firstNonopt, lastNonopt, optind)
      requires optind < |orig| && nextchar.Some? && optarg.None?
      modifies this`optind, this`nextchar, this`optarg
      ensures var (a, i') := LongStep(cfg, opts, orig, old(optind), old(nextchar.value), optstring);
              Answer(code, optarg) == a && optind == i' && Rest() == "" &&
              marks' == marks + Marks(optind - old(optind), true)
      ensures Layout(argv[..], orig, marks', firstNonopt, lastNonopt, optind)
    {
      hide Layout;
      ghost var i := optind;
      NextElement(argv[..], orig, marks, firstNonopt, lastNonopt, i);
      var text := nextchar.value;
      var nameend := NameEnd(text);
      var m := LookUpLong(opts, text[..nameend]);
      nextchar := Some("");
      optind := optind + 1;
      match m {
        case Ambiguous => code := QUESTION;
        case Unknown => code := QUESTION;
        case Found(o) =>
          code := o.val;
          if nameend < |text| {
            if o.hasArg != 0 {
              optarg := Some(text[nameend + 1..]);
            } else {
              code := QUESTION;
            }
          } else if o.hasArg == 1 {
            if optind < argv.Length {
              optarg := Some(argv[optind]);
              optind := optind + 1;
            } else {
              code := Missing(optstring);
            }
          }
      }
      LayoutUse(argv[..], orig, marks, firstNonopt, lastNonopt, i, optind - i);
      marks' := marks + Marks(optind - i, true);
    }

    /** getopt, once initialized.  The answer is the one that CallAt gives for the original vector. */
    method NextOption(argv: array<string>, optstring: string, ghost orig: seq<string>, ghost marks: seq<bool>)
        returns (code: Option<int>, ghost marks': seq<bool>)
      requires Scanning(argv[..], orig, marks) && !LongByW(optstring)
      modifies this`optind, this`firstNonopt, this`lastNonopt, this`nextchar, this`optarg, argv
      ensures match CallAt(cfg, optstring, ordering, orig, Position(old(optind), old(Rest())))
              case Finished(j) =>
                code == None && FinalLayout(argv[..], orig, Stopping(orig, marks, old(optind), j), optind)
              case Returned(j, a, q) =>
                code == Some(a.code) && optarg == a.optarg && Position(optind, Rest()) == q &&
                Scanning(argv[..], orig, marks') &&
                marks' == marks + (Marks(j - old(optind), false) + Marks(q.i - j, true))
    {
      hide Layout, FinalLayout, ShortStep, ElementCall, Boundary, Marks, Stopping, IsNonOption, LongByW;
      ghost var i := optind;
      optarg := None;
      if Rest() == "" {
        var stop;
        stop, marks' := AdvanceElement(argv, orig, marks);
        if stop {
          return None, marks';
        }
        ghost var j := optind;
        code, marks' := DecodeElement(argv, optstring, orig, marks');
        if code == None {
          StoppingThere(orig, marks, i, j);
        } else {
          MarksAssoc(marks, j - i, optind - j);
        }
      } else {
        var c;
        c, marks' := ShortOption(argv, optstring, orig, marks);
        MarksAssoc(marks, 0, optind - i);
        assert marks + Marks(0, false) == marks;
        code := Some(c);
      }
    }

    /** The scan has come to an element that is not "--": describe a non-option to the caller or
        stop at it, or decode an option. */
    method DecodeElement(argv: array<string>, optstring: string, ghost orig: seq<string>, ghost marks: seq<bool>)
        returns (code: Option<int>, ghost marks': seq<bool>)
      requires Scanning(argv[..], orig, marks) && Rest() == "" && optarg.None? && optind < |orig| && !LongByW(optstring)
      requires ordering.Permute? ==> !IsNonOption(orig[optind])
      modifies this`optind, this`nextchar, this`optarg
      ensures match ElementCall(cfg, optstring, ordering, orig, old(optind))
              case Finished(j) =>
                code == None && FinalLayout(argv[..], orig, marks + Marks(|orig| - j, false), optind)
              case Returned(j, a, q) =>
                code == Some(a.code) && optarg == a.optarg && Position(optind, Rest()) == q &&
                Scanning(argv[..], orig, marks') && marks' == marks + Marks(q.i - j, true)
    {
      hide Layout, FinalLayout, ShortStep, LongStep, LongByW;
      ghost var j := optind;
      marks' := marks;
      NextElement(argv[..], orig, marks, firstNonopt, lastNonopt, j);
      if IsNonOption(argv[optind]) {
        if ordering.RequireOrder? {
          NothingSkipped(argv[..], orig, marks, j);
          return None, marks;
        }
        optarg := Some(argv[optind]);
        optind := optind + 1;
        LayoutUse(argv[..], orig, marks, firstNonopt, lastNonopt, j, 1);
        return Some(NON_OPTION), marks + Marks(1, true);
      }
      var c: int;
      if cfg.longopts.Some? && argv[optind][1] == '-' {
        nextchar := Some(argv[optind][2..]);
        c, marks' := LongOption(argv, cfg.longopts.value, optstring, orig, marks);
      } else {
        nextchar := Some(argv[optind][1..]);
        c, marks' := ShortOption(argv, optstring, orig, marks);
      }
      code := Some(c);
    }

    /** Ready for the call at position `p`, which sees the option string `os`. */
    ghost predicate Ready(a: seq<string>, orig: seq<string>, marks: seq<bool>, p: Position, os: string)
      reads this
    {
      if initialized
      then optind > 0 && Scanning(a, orig, marks) && ordering == OrderingOf(cfg, posixlyCorrect) &&
           p == Position(optind, Rest()) && os == cfg.optstring
      else optind == 1 && orig == a && |a| >= 1 && marks == [] && p == Position(1, "") && os == FirstOptstring(cfg)
    }

    /** getopt: the first call sets up the scan, and takes the character that chooses the ordering off
        its own copy of the option string.  Later calls are given the whole string again, so for them
        that character is an option like the others. */
    method GetOpt(argv: array<string>, ghost orig: seq<string>, ghost marks: seq<bool>)
        returns (code: Option<int>, ghost marks': seq<bool>)
      requires argv.Length >= 1 && !LongByW(cfg.optstring)
      requires if initialized then optind > 0 && Scanning(argv[..], orig, marks)
               else optind <= 1 && orig == argv[..] && marks == []
      modifies this`optind, this`firstNonopt, this`lastNonopt, this`nextchar, this`optarg,
               this`initialized, this`ordering, argv
      ensures initialized && ordering == (if old(initialized) then old(ordering) else OrderingOf(cfg, posixlyCorrect))
      ensures var i, rest := if old(initialized) then old(optind) else 1, if old(initialized) then old(Rest()) else "";
              var optstring := if old(initialized) then cfg.optstring else FirstOptstring(cfg);
              match CallAt(cfg, optstring, ordering, orig, Position(i, rest))
              case Finished(j) =>
                code == None && FinalLayout(argv[..], orig, Stopping(orig, marks, i, j), optind)
              case Returned(j, a, q) =>
                code == Some(a.code) && optarg == a.optarg && Position(optind, Rest()) == q && optind > 0 &&
                Scanning(argv[..], orig, marks') &&
                marks' == marks + (Marks(j - i, false) + Marks(q.i - j, true))
    {
      hide FinalLayout, CallAt, LongByW, FirstOptstring;
      var optstring := cfg.optstring;
      if optind == 0 || !initialized {
        optind := 1;
        firstNonopt, lastNonopt, nextchar := optind, optind, None;
        ordering := OrderingOf(cfg, posixlyCorrect);
        optstring := FirstOptstring(cfg);
        initialized := true;
        LayoutStart(argv[..]);
      }
      code, marks' := NextOption(argv, optstring, orig, marks);
    }
  }

  /** Calling getopt until it is done.  The answers are those that reading the original vector from
      left to right gives, and the vector is left with everything that was used up in front, in
      order, and behind it, from `first` on, everything that was not, in order. */
  method ParseAll(argv: array<string>, cfg: Config, posixlyCorrect: bool)
      returns (answers: seq<Answer>, first: nat, ghost used: seq<bool>)
    requires argv.Length >= 1 && !LongByW(cfg.optstring)
    modifies argv
    ensures var s := OrderingOf(cfg, posixlyCorrect);
            answers == Answers(cfg, FirstOptstring(cfg), s, old(argv[..]), Position(1, "")) &&
            used == Used(cfg, FirstOptstring(cfg), s, old(argv[..]), Position(1, "")) &&
            FinalLayout(argv[..], old(argv[..]), used, first)
  {
    hide Answers, Used, CallAt, Layout, FinalLayout, Left, Marks, Stopping, OrderingOf, FirstOptstring, IsNonOption, LongByW;
    var scanner := new Scanner(cfg, posixlyCorrect);
    ghost var orig, marks, ord := argv[..], [], OrderingOf(cfg, posixlyCorrect);
    ghost var p, os := Position(1, ""), FirstOptstring(cfg);
    ghost var wanted, all := Answers(cfg, os, ord, orig, p), Used(cfg, os, ord, orig, p);
    answers := [];
    while true
      invariant fresh(scanner) && scanner.cfg == cfg && scanner.posixlyCorrect == posixlyCorrect
      invariant scanner.Ready(argv[..], orig, marks, p, os)
      invariant p.i <= |orig| && (p.rest != "" ==> p.i < |orig|)
      invariant answers + Answers(cfg, os, ord, orig, p) == wanted && marks + Used(cfg, os, ord, orig, p) == all
      decreases |orig| - p.i, Left(orig, p)
    {
      var code: Option<int>;
      ghost var call := CallAt(cfg, os, ord, orig, p);
      AnswersStep(cfg, os, ord, orig, p, answers, marks);
      ghost var before := marks;
      code, marks := scanner.GetOpt(argv, orig, marks);
      if code == None {
        return answers, scanner.optind, all;
      }
      answers := answers + [Answer(code.value, scanner.optarg)];
      assert call.Returned? && Closer(orig, p, call.next);
      p, os := call.next, cfg.optstring;
    }
  }

  /** What is still to be answered and marked, before a call and after it. */
  lemma {:induction false} AnswersStep(cfg: Config, os: string, ord: Ordering, orig: seq<string>, p: Position, answers: seq<Answer>, marks: seq<bool>)
    requires p.i <= |orig| && (p.rest != "" ==> p.i < |orig|)
    ensures match CallAt(cfg, os, ord, orig, p)
            case Finished(j) =>
              answers + Answers(cfg, os, ord, orig, p) == answers &&
              marks + Used(cfg, os, ord, orig, p) == Stopping(orig, marks, p.i, j)
            case Returned(j, a, q) =>
              answers + Answers(cfg, os, ord, orig, p) == answers + [a] + Answers(cfg, cfg.optstring, ord, orig, q) &&
              marks + Used(cfg, os, ord, orig, p) ==
                marks + (Marks(j - p.i, false) + Marks(q.i - j, true)) + Used(cfg, cfg.optstring, ord, orig, q)
  {
    hide CallAt, Left, Answers, Used;
    AnswersUnfold(cfg, os, ord, orig, p);
    match CallAt(cfg, os, ord, orig, p)
    case Finished(j) =>
    case Returned(j, a, q) =>
      AssocAnswers(answers, [a], Answers(cfg, cfg.optstring, ord, orig, q));
      AssocMarks(marks, Marks(j - p.i, false) + Marks(q.i - j, true), Used(cfg, cfg.optstring, ord, orig, q));
  }

  lemma {:induction false} AnswersUnfold(cfg: Config, os: string, ord: Ordering, orig: seq<string>, p: Position)
    requires p.i <= |orig| && (p.rest != "" ==> p.i < |orig|)
    ensures match CallAt(cfg, os, ord, orig, p)
            case Finished(j) =>
              Answers(cfg, os, ord, orig, p) == [] &&
              forall marks :: marks + Used(cfg, os, ord, orig, p) == Stopping(orig, marks, p.i, j)
            case Returned(j, a, q) =>
              Answers(cfg, os, ord, orig, p) == [a] + Answers(cfg, cfg.optstring, ord, orig, q) &&
              Used(cfg, os, ord, orig, p) ==
                Marks(j - p.i, false) + Marks(q.i - j, true) + Used(cfg, cfg.optstring, ord, orig, q)
  {
    hide CallAt, Left;
  }

  lemma {:induction false} UsedUnfold(cfg: Config, os: string, ord: Ordering, args: seq<string>, p: Position)
    requires p.i <= |args| && (p.rest != "" ==> p.i < |args|)
    ensures match CallAt(cfg, os, ord, args, p)
            case Finished(j) =>
              var stop := if j < |args| && args[j] == "--" then [true] else [];
              Used(cfg, os, ord, args, p) == Marks(j - p.i, false) + stop + Marks(|args| - j - |stop|, false)
            case Returned(j, a, q) =>
              Used(cfg, os, ord, args, p) == Marks(j - p.i, false) + Marks(q.i - j, true) + Used(cfg, cfg.optstring, ord, args, q) &&
              (q.i > p.i || (q.i == p.i && Left(args, q) < Left(args, p)))
  {
    hide CallAt, Left;
  }

  lemma {:induction false} AssocAnswers(a: seq<Answer>, b: seq<Answer>, c: seq<Answer>)
    ensures a + (b + c) == a + b + c
  {
  }

  lemma {:induction false} AssocMarks(a: seq<bool>, b: seq<bool>, c: seq<bool>)
    ensures a + (b + c) == a + b + c
  {
  }

  lemma {:induction false} StoppingThere(orig: seq<string>, marks: seq<bool>, i: nat, j: nat)
    requires i <= j < |orig| && orig[j] != "--"
    ensures marks + Marks(j - i, false) + Marks(|orig| - j, false) == Stopping(orig, marks, i, j)
  {
  }

  lemma {:induction false} NothingSkipped(a: seq<string>, orig: seq<string>, marks: seq<bool>, o: nat)
    requires Layout(a, orig, marks, 1, 1, o)
    ensures FinalLayout(a, orig, marks + Marks(|orig| - o, false), o)
  {
    LayoutNoneSkipped(a, orig, marks, 1, o);
    LayoutFinal(a, orig, marks, o, o);
  }

  lemma {:induction false} MarksAssoc(marks: seq<bool>, m: nat, n: nat)
    ensures marks + Marks(m, false) + Marks(n, true) == marks + (Marks(m, false) + Marks(n, true))
  {
  }

  lemma {:induction false} SameThere(a: seq<string>, orig: seq<string>, marks: seq<bool>, f: nat, l: nat, o: nat)
    requires Layout(a, orig, marks, f, l, o)
    ensures 1 <= f <= l <= o <= |a| == |orig| && |marks| == o - 1 && (o < |orig| ==> a[o] == orig[o])
  {
    hide Select;
    if o < |orig| {
      assert a[o] == a[o..][0] == orig[o..][0] == orig[o];
    }
  }

  /** The marks of a scan that has come to its end, or to the "--". */
  lemma {:induction false} StoppingAt(orig: seq<string>, marks: seq<bool>, i: nat, j: nat)
    requires i <= j <= |orig|
    ensures var m := marks + Marks(j - i, false);
            if j < |orig| && orig[j] == "--" then m + Marks(1, true) + Marks(|orig| - j - 1, false) == Stopping(orig, marks, i, j)
            else j == |orig| ==> m + Marks(0, false) == Stopping(orig, marks, i, j)
  {
  }

  lemma {:induction false} InRange(a: seq<string>, orig: seq<string>, marks: seq<bool>, f: nat, l: nat, o: nat)
    requires Layout(a, orig, marks, f, l, o)
    ensures 1 <= f <= l <= o <= |a| == |orig| && |marks| == o - 1
  {
  }

  lemma {:induction false} NextElement(a: seq<string>, orig: seq<string>, marks: seq<bool>, f: nat, l: nat, o: nat)
    requires Layout(a, orig, marks, f, l, o)
    ensures |a| == |orig| && o <= |orig| && forall k :: o <= k < |orig| ==> a[k] == orig[k]
  {
    forall k | o <= k < |orig|
      ensures a[k] == orig[k]
    {
      assert a[k] == a[o..][k - o] == orig[o..][k - o];
    }
  }

  /** The vector left behind is a permutation of the original. */
  lemma {:induction false} FinalIsPermutation(a: seq<string>, orig: seq<string>, used: seq<bool>, o: nat)
    requires FinalLayout(a, orig, used, o)
    ensures multiset(a) == multiset(orig) && 1 <= o <= |a|
  {
    SelectIsPermutation(orig[1..], used);
    assert a == orig[..1] + (Select(orig[1..], used, true) + Select(orig[1..], used, false));
    assert orig == orig[..1] + orig[1..];
  }

  /** In the two orderings that do not permute, the used elements are the first ones. */
  lemma {:induction false} UsedIsPrefix(cfg: Config, os: string, ord: Ordering, args: seq<string>, p: Position) returns (k: nat)
    requires p.i <= |args| && (p.rest != "" ==> p.i < |args|) && !ord.Permute?
    ensures p.i + k <= |args|
    ensures Used(cfg, os, ord, args, p) == Marks(k, true) + Marks(|args| - p.i - k, false)
    decreases |args| - p.i, Left(args, p)
  {
    hide *;
    match CallAt(cfg, os, ord, args, p)
    case Finished(j) =>
      k := UsedAtEnd(cfg, os, ord, args, p);
    case Returned(j, a, q) =>
      UsedInCall(cfg, os, ord, args, p);
      var rest := UsedIsPrefix(cfg, cfg.optstring, ord, args, q);
      k := (q.i - p.i) + rest;
      PrefixMore(q.i - p.i, rest, Marks(|args| - p.i - k, false));
  }

  lemma {:induction false} UsedInCall(cfg: Config, os: string, ord: Ordering, args: seq<string>, p: Position)
    requires p.i <= |args| && (p.rest != "" ==> p.i < |args|) && !ord.Permute? && CallAt(cfg, os, ord, args, p).Returned?
    ensures var q := CallAt(cfg, os, ord, args, p).next;
            Used(cfg, os, ord, args, p) == Marks(q.i - p.i, true) + Used(cfg, cfg.optstring, ord, args, q) &&
            (q.i > p.i || (q.i == p.i && Left(args, q) < Left(args, p)))
  {
    hide *;
    UsedUnfold(cfg, os, ord, args, p);
    NoSkip(cfg, os, ord, args, p);
    assert Marks(0, false) == [];
  }

  lemma {:induction false} UsedAtEnd(cfg: Config, os: string, ord: Ordering, args: seq<string>, p: Position) returns (k: nat)
    requires p.i <= |args| && (p.rest != "" ==> p.i < |args|) && !ord.Permute? && CallAt(cfg, os, ord, args, p).Finished?
    ensures p.i + k <= |args| && Used(cfg, os, ord, args, p) == Marks(k, true) + Marks(|args| - p.i - k, false)
  {
    hide *;
    UsedUnfold(cfg, os, ord, args, p);
    NoSkip(cfg, os, ord, args, p);
    k := if p.i < |args| && args[p.i] == "--" then 1 else 0;
    assert Marks(0, false) == [] && Marks(k, true) == if k == 1 then [true] else [];
  }

  lemma {:induction false} PrefixMore(m: nat, n: nat, r: seq<bool>)
    ensures Marks(m, true) + (Marks(n, true) + r) == Marks(m + n, true) + r
  {
  }

  lemma {:induction false} NoSkip(cfg: Config, os: string, ord: Ordering, args: seq<string>, p: Position)
    requires p.i <= |args| && (p.rest != "" ==> p.i < |args|) && !ord.Permute?
    ensures match CallAt(cfg, os, ord, args, p) case Finished(j) => j == p.i case Returned(j, _, _) => j == p.i
  {
  }

  lemma {:induction false} SelectPrefix(s: seq<string>, n: nat, m: nat)
    requires |s| == n + m
    ensures Select(s, Marks(n, true) + Marks(m, false), true) == s[..n]
    ensures Select(s, Marks(n, true) + Marks(m, false), false) == s[n..]
  {
    assert s == s[..n] + s[n..];
    SelectAppend(s[..n], Marks(n, true), s[n..], Marks(m, false), true);
    SelectAppend(s[..n], Marks(n, true), s[n..], Marks(m, false), false);
    SelectAll(s[..n], Marks(n, true), true);
    SelectAll(s[n..], Marks(m, false), false);
  }

  /** So they leave the vector as it was, and `o` at the first unused element. */
  lemma {:induction false} InOrderUnchanged(a: seq<string>, orig: seq<string>, cfg: Config, os: string, ord: Ordering, o: nat, used: seq<bool>)
    requires |orig| >= 1 && !ord.Permute?
    requires used == Used(cfg, os, ord, orig, Position(1, "")) && FinalLayout(a, orig, used, o)
    ensures a == orig
    ensures forall k :: 0 <= k < |used| ==> (used[k] <==> k + 1 < o)
  {
    hide Used, CallAt;
    var n := UsedIsPrefix(cfg, os, ord, orig, Position(1, ""));
    SelectPrefix(orig[1..], n, |orig| - 1 - n);
    assert orig == orig[..1] + orig[1..][..n] + orig[1..][n..];
  }

  lemma {:induction false} PermutedCall(cfg: Config, os: string, args: seq<string>, p: Position)
    requires p.i <= |args| && (p.rest != "" ==> p.i < |args|)
    ensures match CallAt(cfg, os, Permute, args, p)
            case Finished(j) => j == |args| || args[j] == "--"
            case Returned(j, _, _) => true
    ensures var c := CallAt(cfg, os, Permute, args, p);
            forall k :: p.i <= k < (if c.Finished? then c.at else c.from) ==> IsNonOption(args[k])
  {
  }

  /** What a permuting scan leaves to the caller has no option syntax, unless it stands behind a
      "--" that the scan used up. */
  lemma {:induction false} LeftOverOperands(cfg: Config, os: string, args: seq<string>, p: Position, k: nat)
    requires p.i <= k < |args| && (p.rest != "" ==> p.i < |args|)
    requires !Used(cfg, os, Permute, args, p)[k - p.i]
    ensures IsNonOption(args[k]) ||
            exists j :: p.i <= j < k && args[j] == "--" && Used(cfg, os, Permute, args, p)[j - p.i]
    decreases |args| - p.i, Left(args, p)
  {
    hide *;
    UsedUnfold(cfg, os, Permute, args, p);
    PermutedCall(cfg, os, args, p);
    match CallAt(cfg, os, Permute, args, p)
    case Finished(j) =>
      if j < k {
        assert args[j] == "--" && Used(cfg, os, Permute, args, p)[j - p.i];
      }
    case Returned(j, a, q) =>
      if q.i <= k {
        LeftOverOperands(cfg, cfg.optstring, args, q, k);
        if j' :| q.i <= j' < k && args[j'] == "--" && Used(cfg, cfg.optstring, Permute, args, q)[j' - q.i] {
          assert Used(cfg, os, Permute, args, p)[j' - p.i];
        }
      }
  }
}
