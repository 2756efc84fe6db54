/** Pattern rules, and which of them may make a file: the first half of pattern_search. */
module PatternRules {
  import opened Wrappers

  /** A target or prerequisite pattern: the text around its percent sign. */
  datatype Pattern = Pattern(prefix: string, suffix: string)

  datatype Rule = Rule(targets: seq<Pattern>, deps: seq<string>, hasCmds: bool, terminal: bool)

  /** The pattern "%". */
  predicate MatchAnything(p: Pattern) {
    p.prefix == "" && p.suffix == ""
  }

  /** A pattern without a slash is matched against the name without its directory. */
  predicate Checked(p: Pattern, dir: string) {
    dir != "" && '/' !in p.prefix && '/' !in p.suffix
  }

  function DirPart(p: Pattern, dir: string): string {
    if Checked(p, dir) then dir else ""
  }

  /** The pattern with this stem, behind the directory it was matched without, is the name again.
      A stem may be empty only where a directory was set aside. */
  predicate Fits(p: Pattern, dir: string, name: string, stem: string) {
    name == DirPart(p, dir) + p.prefix + stem + p.suffix && (Checked(p, dir) || stem != "")
  }

  ghost predicate FitsSome(p: Pattern, dir: string, name: string) {
    exists stem :: Fits(p, dir, name, stem)
  }

  /** The stem is determined by where it begins and how long it is. */
  lemma {:induction false} FitsAt(p: Pattern, dir: string, name: string, stem: string)
    requires Fits(p, dir, name, stem)
    ensures var i := |DirPart(p, dir)| + |p.prefix|;
            i + |p.suffix| + |stem| == |name| && stem == name[i..|name| - |p.suffix|]
  {
  }

  /** What a fitting pattern shows at two places of the name. */
  predicate Shows(p: Pattern, dir: string, name: string) {
    var d := |DirPart(p, dir)|;
    d + |p.prefix| + |p.suffix| <= |name| && |p.prefix| + |p.suffix| < |name| &&
    name[d..d + |p.prefix|] == p.prefix && name[|name| - |p.suffix|..] == p.suffix
  }

  lemma {:induction false} FitsShows(p: Pattern, dir: string, name: string, stem: string)
    requires Fits(p, dir, name, stem)
    ensures Shows(p, dir, name)
  {
    var d := |DirPart(p, dir)|;
    assert |name| == d + |p.prefix| + |stem| + |p.suffix|;
    assert name[d..d + |p.prefix|] == p.prefix;
    assert name[|name| - |p.suffix|..] == p.suffix;
    assert Checked(p, dir) ==> d > 0;
  }

  lemma {:induction false} ShowsFits(p: Pattern, dir: string, name: string)
    requires dir <= name && Shows(p, dir, name)
    ensures Fits(p, dir, name, name[|DirPart(p, dir)| + |p.prefix|..|name| - |p.suffix|])
  {
    var d := |DirPart(p, dir)|;
    assert name == name[..d] + name[d..d + |p.prefix|] + name[d + |p.prefix|..|name| - |p.suffix|] + name[|name| - |p.suffix|..];
  }

  /** Whether a pattern fits is seen at these places. */
  lemma {:induction false} FitsIff(p: Pattern, dir: string, name: string)
    requires dir <= name
    ensures FitsSome(p, dir, name) <==> Shows(p, dir, name)
    ensures FitsSome(p, dir, name) ==> Fits(p, dir, name, name[|DirPart(p, dir)| + |p.prefix|..|name| - |p.suffix|])
  {
    hide Fits, Shows;
    if stem :| Fits(p, dir, name, stem) {
      FitsShows(p, dir, name, stem);
    }
    if Shows(p, dir, name) {
      ShowsFits(p, dir, name);
    }
  }

  /** The last slash, unless the name ends with it; -1 for none. */
  method FindLastSlash(name: string) returns (slash: int)
    ensures -1 <= slash < |name|
    ensures slash >= 0 ==> name[slash] == '/' && slash + 1 < |name| && '/' !in name[slash + 1..]
    ensures slash < 0 ==> '/' !in name || name[|name| - 1] == '/'
  {
    slash := |name| - 1;
    while slash >= 0 && name[slash] != '/'
      invariant -1 <= slash < |name| && '/' !in name[slash + 1..]
    {
      assert name[slash..] == [name[slash]] + name[slash + 1..];
      slash := slash - 1;
    }
    if slash >= 0 && slash + 1 == |name| {
      slash := -1;
    } else if slash < 0 {
      assert name == name[0..];
    }
  }

  lemma {:induction false} ShowsIs(p: Pattern, name: string, slash: int)
    requires -1 <= slash < |name|
    ensures var d := if slash >= 0 && '/' !in p.prefix && '/' !in p.suffix then slash + 1 else 0;
            |DirPart(p, name[..slash + 1])| == d &&
            (Shows(p, name[..slash + 1], name) <==>
             d + |p.prefix| + |p.suffix| <= |name| && |p.prefix| + |p.suffix| < |name| &&
             name[d..d + |p.prefix|] == p.prefix && name[|name| - |p.suffix|..] == p.suffix)
  {
  }

  /** Compares one target pattern with a name; the answer is the place of the stem. */
  method MatchTarget(p: Pattern, name: string, slash: int) returns (m: Option<(nat, nat)>)
    requires -1 <= slash < |name|
    ensures m.Some? <==> FitsSome(p, name[..slash + 1], name)
    ensures m.Some? ==> m.value.0 + m.value.1 <= |name| &&
                        m.value.0 == |DirPart(p, name[..slash + 1])| + |p.prefix| &&
                        Fits(p, name[..slash + 1], name, name[m.value.0..m.value.0 + m.value.1])
  {
    hide *;
    FitsIff(p, name[..slash + 1], name);
    ShowsIs(p, name, slash);
    if |p.prefix| + 1 + |p.suffix| > |name| {
      return None;
    }
    var stem := |p.prefix|;
    var stemlen := |name| - (|p.prefix| + 1 + |p.suffix|) + 1;
    var checkLastSlash := slash >= 0 && '/' !in p.prefix && '/' !in p.suffix;
    if checkLastSlash {
      var difference := slash + 1;
      if difference > stemlen {
        return None;
      }
      stemlen := stemlen - difference;
      stem := stem + difference;
    }
    if name[stem - |p.prefix|..stem] != p.prefix {
      return None;
    }
    if name[stem + stemlen..] != p.suffix {
      return None;
    }
    return Some((stem, stemlen));
  }

  // ----- the rules that may be tried

  /** A rule and one of its targets; `checked` as in Checked. */
  datatype Candidate = Candidate(rule: nat, pat: nat, checked: bool)

  /** The rule is looked at: prerequisites without commands cancel it, and a rule that a parent
      search is trying is avoided. */
  predicate Considered(rules: seq<Rule>, inUse: seq<bool>, r: nat)
    requires r < |rules| == |inUse|
  {
    (rules[r].deps == [] || rules[r].hasCmds) && !inUse[r]
  }

  /** Its target is looked at: intermediate files are not made by a rule for any file, unless it
      is terminal. */
  predicate Eligible(rule: Rule, t: nat, recursing: bool)
    requires t < |rule.targets|
  {
    !(recursing && MatchAnything(rule.targets[t]) && !rule.terminal)
  }

  ghost predicate Specific(rules: seq<Rule>, inUse: seq<bool>, recursing: bool, name: string, dir: string, r: nat, t: nat)
    requires r < |rules| == |inUse| && t < |rules[r].targets|
  {
    Considered(rules, inUse, r) && Eligible(rules[r], t, recursing) && FitsSome(rules[r].targets[t], dir, name) &&
    !MatchAnything(rules[r].targets[t])
  }

  ghost predicate SpecificIn(rules: seq<Rule>, inUse: seq<bool>, recursing: bool, name: string, dir: string, r: nat, n: nat)
    requires r < |rules| == |inUse| && n <= |rules[r].targets|
  {
    exists t :: 0 <= t < n && Specific(rules, inUse, recursing, name, dir, r, t)
  }

  ghost predicate SpecificBefore(rules: seq<Rule>, inUse: seq<bool>, recursing: bool, name: string, dir: string, n: nat)
    requires n <= |rules| == |inUse|
  {
    exists r, t :: 0 <= r < n && 0 <= t < |rules[r].targets| && Specific(rules, inUse, recursing, name, dir, r, t)
  }

  /** Some target that does not match every file does match this one. */
  ghost predicate SpecificMatch(rules: seq<Rule>, inUse: seq<bool>, recursing: bool, name: string, dir: string)
    requires |rules| == |inUse|
  {
    SpecificBefore(rules, inUse, recursing, name, dir, |rules|)
  }

  lemma {:induction false} SpecificNext(rules: seq<Rule>, inUse: seq<bool>, recursing: bool, name: string, dir: string, n: nat)
    requires n < |rules| == |inUse|
    ensures SpecificBefore(rules, inUse, recursing, name, dir, n + 1) <==>
            SpecificBefore(rules, inUse, recursing, name, dir, n) ||
            SpecificIn(rules, inUse, recursing, name, dir, n, |rules[n].targets|)
    ensures !Considered(rules, inUse, n) ==> !SpecificIn(rules, inUse, recursing, name, dir, n, |rules[n].targets|)
  {
  }

  /** The candidates a rule gives by its targets from `t` on. */
  ghost function FromTargets(rule: Rule, r: nat, recursing: bool, name: string, dir: string, t: nat): seq<Candidate>
    requires t <= |rule.targets|
    decreases |rule.targets| - t
  {
    if t == |rule.targets| then []
    else
      (if Eligible(rule, t, recursing) && FitsSome(rule.targets[t], dir, name) && rule.hasCmds
       then [Candidate(r, t, Checked(rule.targets[t], dir))] else []) +
      FromTargets(rule, r, recursing, name, dir, t + 1)
  }

  ghost function FromRules(rules: seq<Rule>, inUse: seq<bool>, recursing: bool, name: string, dir: string, r: nat): seq<Candidate>
    requires r <= |rules| == |inUse|
    decreases |rules| - r
  {
    if r == |rules| then []
    else
      (if Considered(rules, inUse, r) then FromTargets(rules[r], r, recursing, name, dir, 0) else []) +
      FromRules(rules, inUse, recursing, name, dir, r + 1)
  }

  /** What a candidate is. */
  ghost predicate IsCandidate(rules: seq<Rule>, inUse: seq<bool>, recursing: bool, name: string, dir: string, c: Candidate)
    requires |rules| == |inUse|
  {
    c.rule < |rules| && c.pat < |rules[c.rule].targets| && rules[c.rule].hasCmds && !inUse[c.rule] &&
    Eligible(rules[c.rule], c.pat, recursing) && FitsSome(rules[c.rule].targets[c.pat], dir, name) &&
    c.checked == Checked(rules[c.rule].targets[c.pat], dir)
  }

  lemma {:induction false} InFromTargets(rule: Rule, r: nat, recursing: bool, name: string, dir: string, t: nat, c: Candidate)
    requires t <= |rule.targets|
    ensures c in FromTargets(rule, r, recursing, name, dir, t) <==>
            c.rule == r && t <= c.pat < |rule.targets| && rule.hasCmds && Eligible(rule, c.pat, recursing) &&
            FitsSome(rule.targets[c.pat], dir, name) && c.checked == Checked(rule.targets[c.pat], dir)
    decreases |rule.targets| - t
  {
    if t < |rule.targets| {
      InFromTargets(rule, r, recursing, name, dir, t + 1, c);
    }
  }

  /** The candidates are exactly the usable rules one of whose targets fits. */
  lemma {:induction false} InFromRules(rules: seq<Rule>, inUse: seq<bool>, recursing: bool, name: string, dir: string, r: nat, c: Candidate)
    requires r <= |rules| == |inUse|
    ensures c in FromRules(rules, inUse, recursing, name, dir, r) <==>
            r <= c.rule && IsCandidate(rules, inUse, recursing, name, dir, c)
    decreases |rules| - r
  {
    if r < |rules| {
      InFromTargets(rules[r], r, recursing, name, dir, 0, c);
      InFromRules(rules, inUse, recursing, name, dir, r + 1, c);
    }
  }

  lemma {:induction false} SpecificNone(rules: seq<Rule>, inUse: seq<bool>, recursing: bool, name: string, dir: string)
    requires |rules| == |inUse|
    ensures !SpecificBefore(rules, inUse, recursing, name, dir, 0)
  {
  }

  predicate MatchesAnyFile(rule: Rule) {
    exists j :: 0 <= j < |rule.targets| && MatchAnything(rule.targets[j])
  }

  /** The list that is tried: with a specific match, rules for any file are struck out again,
      unless they are terminal. */
  ghost function Tryable(rules: seq<Rule>, inUse: seq<bool>, recursing: bool, name: string, dir: string): (l: seq<Option<Candidate>>)
    requires |rules| == |inUse|
    ensures forall i :: 0 <= i < |l| && l[i].Some? ==> IsCandidate(rules, inUse, recursing, name, dir, l[i].value)
  {
    var all := FromRules(rules, inUse, recursing, name, dir, 0);
    forall i | 0 <= i < |all| ensures IsCandidate(rules, inUse, recursing, name, dir, all[i]) {
      InFromRules(rules, inUse, recursing, name, dir, 0, all[i]);
    }
    seq(|all|, i requires 0 <= i < |all| =>
      if SpecificMatch(rules, inUse, recursing, name, dir) && !rules[all[i].rule].terminal && MatchesAnyFile(rules[all[i].rule])
      then None else Some(all[i]))
  }

  /** Some stem in the pattern gives the name: behind the directory for a pattern without a slash, and
      otherwise one that is not empty. */
  ghost predicate HasStem(p: Pattern, dir: string, name: string) {
    exists stem ::
      if dir != "" && '/' !in p.prefix && '/' !in p.suffix then name == dir + p.prefix + stem + p.suffix
      else stem != "" && name == p.prefix + stem + p.suffix
  }

  lemma {:induction false} StemIff(p: Pattern, dir: string, name: string)
    ensures HasStem(p, dir, name) <==> FitsSome(p, dir, name)
  {
    if stem :| Fits(p, dir, name, stem) {
      assert "" + p.prefix == p.prefix;
    }
    if HasStem(p, dir, name) {
      var stem :| if dir != "" && '/' !in p.prefix && '/' !in p.suffix then name == dir + p.prefix + stem + p.suffix
                  else stem != "" && name == p.prefix + stem + p.suffix;
      assert "" + p.prefix == p.prefix;
      assert Fits(p, dir, name, stem);
    }
  }

  /** Which rules are tried: those with commands that no search above is trying, for each target that gives
      the name.  A search for an intermediate file leaves out "%" unless the rule is terminal.  And if a target
      other than "%" gives the name, even one of a rule that only says so, then only terminal rules with a
      target "%" remain of those with one. */
  lemma {:induction false} TryableExactly(rules: seq<Rule>, inUse: seq<bool>, recursing: bool, name: string, dir: string, c: Candidate)
    requires |rules| == |inUse|
    ensures Some(c) in Tryable(rules, inUse, recursing, name, dir) <==>
            c.rule < |rules| && c.pat < |rules[c.rule].targets| && rules[c.rule].hasCmds && !inUse[c.rule] &&
            var rule := rules[c.rule]; var p := rule.targets[c.pat];
            HasStem(p, dir, name) && c.checked == (dir != "" && '/' !in p.prefix && '/' !in p.suffix) &&
            (recursing && p == Pattern("", "") ==> rule.terminal) &&
            (!rule.terminal && Pattern("", "") in rule.targets ==>
             forall r, t | 0 <= r < |rules| && 0 <= t < |rules[r].targets| ::
               (rules[r].deps == [] || rules[r].hasCmds) && !inUse[r] && HasStem(rules[r].targets[t], dir, name) ==>
               rules[r].targets[t] == Pattern("", ""))
  {
    InFromRules(rules, inUse, recursing, name, dir, 0, c);
    SpecificExactly(rules, inUse, recursing, name, dir);
    TryableIs(rules, inUse, recursing, name, dir, c);
    hide Tryable, FromRules, SpecificMatch, FitsSome, HasStem;
    if c.rule < |rules| && c.pat < |rules[c.rule].targets| {
      StemIff(rules[c.rule].targets[c.pat], dir, name);
      AnyFileIff(rules[c.rule]);
    }
  }

  lemma {:induction false} AnyFileIff(rule: Rule)
    ensures MatchesAnyFile(rule) <==> Pattern("", "") in rule.targets
  {
    if MatchesAnyFile(rule) {
      var j :| 0 <= j < |rule.targets| && MatchAnything(rule.targets[j]);
      assert rule.targets[j] == Pattern("", "");
    }
  }

  lemma {:induction false} TryableIs(rules: seq<Rule>, inUse: seq<bool>, recursing: bool, name: string, dir: string, c: Candidate)
    requires |rules| == |inUse|
    ensures Some(c) in Tryable(rules, inUse, recursing, name, dir) <==>
            c in FromRules(rules, inUse, recursing, name, dir, 0) && c.rule < |rules| &&
            !(SpecificMatch(rules, inUse, recursing, name, dir) && !rules[c.rule].terminal && MatchesAnyFile(rules[c.rule]))
  {
    var all, l := FromRules(rules, inUse, recursing, name, dir, 0), Tryable(rules, inUse, recursing, name, dir);
    InFromRules(rules, inUse, recursing, name, dir, 0, c);
    hide FromRules, SpecificMatch, MatchesAnyFile;
    if c in all {
      var i :| 0 <= i < |all| && all[i] == c;
      assert l[i] == Some(c) || l[i] == None;
    }
    if Some(c) in l {
      var i :| 0 <= i < |l| && l[i] == Some(c);
      assert all[i] == c;
    }
  }

  lemma {:induction false} SpecificExactly(rules: seq<Rule>, inUse: seq<bool>, recursing: bool, name: string, dir: string)
    requires |rules| == |inUse|
    ensures SpecificMatch(rules, inUse, recursing, name, dir) <==>
            !forall r, t | 0 <= r < |rules| && 0 <= t < |rules[r].targets| ::
               (rules[r].deps == [] || rules[r].hasCmds) && !inUse[r] && HasStem(rules[r].targets[t], dir, name) ==>
               rules[r].targets[t] == Pattern("", "")
  {
    hide FitsSome, HasStem;
    forall r, t | 0 <= r < |rules| && 0 <= t < |rules[r].targets|
      ensures Specific(rules, inUse, recursing, name, dir, r, t) <==>
              (rules[r].deps == [] || rules[r].hasCmds) && !inUse[r] && HasStem(rules[r].targets[t], dir, name) &&
              rules[r].targets[t] != Pattern("", "")
    {
      StemIff(rules[r].targets[t], dir, name);
    }
    hide Specific;
  }

  /** The rules are tried in the order they stand in, and for each its targets in turn. */
  lemma {:induction false} TryableInOrder(rules: seq<Rule>, inUse: seq<bool>, recursing: bool, name: string, dir: string, i: nat, j: nat)
    requires |rules| == |inUse|
    ensures var l := Tryable(rules, inUse, recursing, name, dir);
            i < j < |l| && l[i].Some? && l[j].Some? ==>
              l[i].value.rule < l[j].value.rule || (l[i].value.rule == l[j].value.rule && l[i].value.pat < l[j].value.pat)
  {
    FromRulesInOrder(rules, inUse, recursing, name, dir, 0);
    var all, l := FromRules(rules, inUse, recursing, name, dir, 0), Tryable(rules, inUse, recursing, name, dir);
    assert |l| == |all| && forall k :: 0 <= k < |l| && l[k].Some? ==> l[k].value == all[k];
    hide FromRules, Tryable;
    if i < j < |l| && l[i].Some? && l[j].Some? {
      assert Before(all[i], all[j]);
    }
  }

  predicate Before(c: Candidate, d: Candidate) {
    c.rule < d.rule || (c.rule == d.rule && c.pat < d.pat)
  }

  lemma {:induction false} FromRulesInOrder(rules: seq<Rule>, inUse: seq<bool>, recursing: bool, name: string, dir: string, r: nat)
    requires r <= |rules| == |inUse|
    ensures InOrder(FromRules(rules, inUse, recursing, name, dir, r))
    ensures forall i :: 0 <= i < |FromRules(rules, inUse, recursing, name, dir, r)| ==> r <= FromRules(rules, inUse, recursing, name, dir, r)[i].rule
    decreases |rules| - r
  {
    hide *;
    if r == |rules| {
      FromRulesEnd(rules, inUse, recursing, name, dir);
      NoneInOrder();
    } else {
      FromRulesInOrder(rules, inUse, recursing, name, dir, r + 1);
      FromTargetsInOrder(rules[r], r, recursing, name, dir, 0);
      FromRulesNext(rules, inUse, recursing, name, dir, r);
      var first, rest := FromTargets(rules[r], r, recursing, name, dir, 0), FromRules(rules, inUse, recursing, name, dir, r + 1);
      forall c, d | c in first && d in rest
        ensures Before(c, d)
      {
        RuleBefore(c, d);
      }
      JoinedInOrder(first, rest);
    }
  }

  predicate InOrder(l: seq<Candidate>) {
    forall i, j :: 0 <= i < j < |l| ==> Before(l[i], l[j])
  }

  lemma {:induction false} NoneInOrder()
    ensures InOrder([])
  {
  }

  lemma {:induction false} RuleBefore(c: Candidate, d: Candidate)
    requires c.rule < d.rule
    ensures Before(c, d)
  {
  }

  lemma {:induction false} JoinedInOrder(a: seq<Candidate>, b: seq<Candidate>)
    requires InOrder(a) && InOrder(b) && forall c, d :: c in a && d in b ==> Before(c, d)
    ensures InOrder(a + b)
  {
    hide Before;
    forall i, j | 0 <= i < j < |a + b|
      ensures Before((a + b)[i], (a + b)[j])
    {
      if i < |a| <= j {
        assert (a + b)[i] in a && (a + b)[j] in b;
      }
    }
  }

  lemma {:induction false} FromTargetsInOrder(rule: Rule, r: nat, recursing: bool, name: string, dir: string, t: nat)
    requires t <= |rule.targets|
    ensures InOrder(FromTargets(rule, r, recursing, name, dir, t))
    ensures forall c :: c in FromTargets(rule, r, recursing, name, dir, t) ==> c.rule == r && t <= c.pat
    decreases |rule.targets| - t
  {
    if t < |rule.targets| {
      FromTargetsInOrder(rule, r, recursing, name, dir, t + 1);
      var rest := FromTargets(rule, r, recursing, name, dir, t + 1);
      FromTargetsIs(rule, r, recursing, name, dir, t);
      hide FromTargets, InOrder;
      var c := Candidate(r, t, Checked(rule.targets[t], dir));
      OneInOrder(c);
      JoinedInOrder([c], rest);
    }
  }

  lemma {:induction false} OneInOrder(c: Candidate)
    ensures InOrder([c])
  {
  }

  lemma {:induction false} FromTargetsIs(rule: Rule, r: nat, recursing: bool, name: string, dir: string, t: nat)
    requires t < |rule.targets|
    ensures var rest := FromTargets(rule, r, recursing, name, dir, t + 1);
            FromTargets(rule, r, recursing, name, dir, t) == rest ||
            FromTargets(rule, r, recursing, name, dir, t) == [Candidate(r, t, Checked(rule.targets[t], dir))] + rest
  {
    hide FitsSome, Eligible;
  }

  lemma {:induction false} SpecificInNext(rules: seq<Rule>, inUse: seq<bool>, recursing: bool, name: string, dir: string, r: nat, n: nat)
    requires r < |rules| == |inUse| && n < |rules[r].targets| && Considered(rules, inUse, r)
    ensures SpecificIn(rules, inUse, recursing, name, dir, r, n + 1) <==>
            SpecificIn(rules, inUse, recursing, name, dir, r, n) ||
            (Eligible(rules[r], n, recursing) && FitsSome(rules[r].targets[n], dir, name) && !MatchAnything(rules[r].targets[n]))
  {
    assert Specific(rules, inUse, recursing, name, dir, r, n) <==>
           Eligible(rules[r], n, recursing) && FitsSome(rules[r].targets[n], dir, name) && !MatchAnything(rules[r].targets[n]);
  }

  /** The targets of one rule. */
  method CollectTargets(rules: seq<Rule>, ghost inUse: seq<bool>, recursing: bool, name: string, ghost dir: string, slash: int, r: nat)
    returns (found: seq<Candidate>, specific: bool)
    requires -1 <= slash < |name| && r < |rules| == |inUse| && Considered(rules, inUse, r) && dir == name[..slash + 1]
    ensures found == FromTargets(rules[r], r, recursing, name, dir, 0)
    ensures specific <==> SpecificIn(rules, inUse, recursing, name, dir, r, |rules[r].targets|)
  {
    var rule := rules[r];
    hide FitsSome, Fits, SpecificIn;
    found, specific := [], false;
    NoSpecific(rules, inUse, recursing, name, dir, r);
    var i := 0;
    while i < |rule.targets|
      invariant i <= |rule.targets|
      invariant found + FromTargets(rule, r, recursing, name, dir, i) == FromTargets(rule, r, recursing, name, dir, 0)
      invariant specific <==> SpecificIn(rules, inUse, recursing, name, dir, r, i)
    {
      SpecificInNext(rules, inUse, recursing, name, dir, r, i);
      ghost var before := found;
      var target := rule.targets[i];
      if !(recursing && MatchAnything(target) && !rule.terminal) {
        var m := MatchTarget(target, name, slash);
        if m.Some? {
          if !MatchAnything(target) {
            specific := true;
          }
          if rule.deps != [] || rule.hasCmds {
            found := found + [Candidate(r, i, slash >= 0 && '/' !in target.prefix && '/' !in target.suffix)];
          }
        }
      }
      FromTargetsNext(rule, r, recursing, name, dir, i, before, found);
      i := i + 1;
    }
  }

  lemma {:induction false} NoSpecific(rules: seq<Rule>, inUse: seq<bool>, recursing: bool, name: string, dir: string, r: nat)
    requires r < |rules| == |inUse|
    ensures !SpecificIn(rules, inUse, recursing, name, dir, r, 0)
  {
  }

  lemma {:induction false} FromTargetsNext(rule: Rule, r: nat, recursing: bool, name: string, dir: string, t: nat, before: seq<Candidate>, found: seq<Candidate>)
    requires t < |rule.targets|
    requires found == before + (if Eligible(rule, t, recursing) && FitsSome(rule.targets[t], dir, name) && rule.hasCmds
                                then [Candidate(r, t, Checked(rule.targets[t], dir))] else [])
    ensures before + FromTargets(rule, r, recursing, name, dir, t) == found + FromTargets(rule, r, recursing, name, dir, t + 1)
  {
    hide FitsSome, Eligible;
  }

  lemma {:induction false} FromRulesNext(rules: seq<Rule>, inUse: seq<bool>, recursing: bool, name: string, dir: string, r: nat)
    requires r < |rules| == |inUse|
    ensures FromRules(rules, inUse, recursing, name, dir, r) ==
            (if Considered(rules, inUse, r) then FromTargets(rules[r], r, recursing, name, dir, 0) else []) +
            FromRules(rules, inUse, recursing, name, dir, r + 1)
    ensures !Considered(rules, inUse, r) ==>
              FromRules(rules, inUse, recursing, name, dir, r) == FromRules(rules, inUse, recursing, name, dir, r + 1)
  {
    hide FromTargets, Considered;
  }

  lemma {:induction false} FromRulesEnd(rules: seq<Rule>, inUse: seq<bool>, recursing: bool, name: string, dir: string)
    requires |rules| == |inUse|
    ensures FromRules(rules, inUse, recursing, name, dir, |rules|) == []
  {
  }

  /** Which rules match the target and may be considered. */
  method CollectRules(rules: seq<Rule>, inUse: seq<bool>, recursing: bool, name: string, slash: int)
    returns (tryrules: seq<Option<Candidate>>)
    requires -1 <= slash < |name| && |rules| == |inUse|
    ensures tryrules == Tryable(rules, inUse, recursing, name, name[..slash + 1])
  {
    hide Specific, SpecificBefore, SpecificIn, FromTargets, Tryable, FromRules;
    ghost var dir := name[..slash + 1];
    var all: seq<Candidate>, specific, r := [], false, 0;
    SpecificNone(rules, inUse, recursing, name, dir);
    while r < |rules|
      invariant r <= |rules|
      invariant all + FromRules(rules, inUse, recursing, name, dir, r) == FromRules(rules, inUse, recursing, name, dir, 0)
      invariant specific <==> SpecificBefore(rules, inUse, recursing, name, dir, r)
    {
      SpecificNext(rules, inUse, recursing, name, dir, r);
      FromRulesNext(rules, inUse, recursing, name, dir, r);
      ghost var before := all;
      if (rules[r].deps == [] || rules[r].hasCmds) && !inUse[r] {
        var found, special := CollectTargets(rules, inUse, recursing, name, dir, slash, r);
        all := all + found;
        specific := specific || special;
        assert before + (found + FromRules(rules, inUse, recursing, name, dir, r + 1)) ==
               all + FromRules(rules, inUse, recursing, name, dir, r + 1);
      }
      r := r + 1;
    }
    FromRulesEnd(rules, inUse, recursing, name, dir);
    assert all + [] == all;
    tryrules := StrikeOut(rules, inUse, recursing, name, dir, all, specific);
  }

  /** Retroactively rejects the rules that match any file. */
  method StrikeOut(rules: seq<Rule>, ghost inUse: seq<bool>, ghost recursing: bool, ghost name: string, ghost dir: string,
                   all: seq<Candidate>, specific: bool) returns (tryrules: seq<Option<Candidate>>)
    requires |rules| == |inUse| && all == FromRules(rules, inUse, recursing, name, dir, 0)
    requires specific == SpecificMatch(rules, inUse, recursing, name, dir)
    ensures tryrules == Tryable(rules, inUse, recursing, name, dir)
  {
    tryrules := [];
    ghost var goal := Tryable(rules, inUse, recursing, name, dir);
    hide FromRules, SpecificMatch;
    var i := 0;
    while i < |all|
      invariant i <= |all| && tryrules == goal[..i]
    {
      InFromRules(rules, inUse, recursing, name, dir, 0, all[i]);
      var rule := rules[all[i].rule];
      var j := 0;
      while j < |rule.targets| && !MatchAnything(rule.targets[j])
        invariant j <= |rule.targets| && forall k :: 0 <= k < j ==> !MatchAnything(rule.targets[k])
      {
        j := j + 1;
      }
      tryrules := tryrules + [if specific && !rule.terminal && j < |rule.targets| then None else Some(all[i])];
      i := i + 1;
    }
  }
}
